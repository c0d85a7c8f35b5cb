/**
 * `Tokens.Parse`: a recursive descent over a nested token list that yields a
 * flat sequence of expression elements, nested lists being spliced in place.
 */
module Tokens {
  import opened Wrappers
  import opened Text
  import opened Expr
  import opened Grammar

  /**
   * A string token that is neither a separator nor a link operator and does
   * not follow the condition grammar. The source terminates the process at
   * this point; here the parse fails with the offending token.
   */
  datatype ParseError = GrammarFailure(token: string)

  /** A token whose trimmed text is a bare link operator. */
  predicate IsOperatorWord(v: string) {
    TrimSpace(v) == "AND" || TrimSpace(v) == "OR"
  }

  /** One string token, classified in the source's order: separator, link operator, condition. */
  function ParseString(v: string): (r: Result<Elt, ParseError>)
    ensures (r.Success? && r.value.Sep?) <==> (v == "(" || v == ")")
    ensures r.Success? && r.value.Sep? ==> r.value.sep == v
    ensures (r.Success? && r.value.Op?) <==> (v != "(" && v != ")" && IsOperatorWord(v))
    ensures r.Success? && r.value.Op? ==> r.value.op == v
    ensures r.Success? && r.value.Cond? ==> ParseCondition(v) == Success(r.value.cond)
    ensures r.Failure? <==> (v != "(" && v != ")" && !IsOperatorWord(v) && ParseCondition(v).Failure?)
    ensures r.Failure? ==> r.error == GrammarFailure(v)
  {
    if v == "(" || v == ")" then Success(Sep(v))
    else if TrimSpace(v) == "AND" then Success(Op(v))
    else if TrimSpace(v) == "OR" then Success(Op(v))
    else
      match ParseCondition(v)
      case Success(c) => Success(Cond(c))
      case Failure(_) => Failure(GrammarFailure(v))
  }

  /** The string leaves of a token tree, left to right. */
  function Leaves(ts: seq<Token>): seq<string>
    decreases ts
  {
    if ts == [] then []
    else
      (match ts[0]
       case Str(v) => [v]
       case List(items) => Leaves(items))
      + Leaves(ts[1..])
  }

  /** Two parses in sequence: the first failure wins, otherwise the outputs are concatenated. */
  function Splice(x: Result<CondExpr, ParseError>, y: Result<CondExpr, ParseError>): Result<CondExpr, ParseError> {
    if x.Failure? then x
    else if y.Failure? then y
    else Success(x.value + y.value)
  }

  /** A string token contributes the one element it parses to. */
  function ParseStringToken(v: string): Result<CondExpr, ParseError> {
    match ParseString(v)
    case Success(e) => Success([e])
    case Failure(err) => Failure(err)
  }

  /**
   * `Tokens.Parse`: each token in order, a nested list contributing its own
   * parse in place; the first failing token aborts the whole parse.
   */
  function ParseTokens(ts: seq<Token>): (r: Result<CondExpr, ParseError>)
    ensures r.Success? ==> |r.value| == |Leaves(ts)|
    decreases ts
  {
    if ts == [] then Success([])
    else
      var head := match ts[0]
        case Str(v) => ParseStringToken(v)
        case List(items) => ParseTokens(items);
      Splice(head, ParseTokens(ts[1..]))
  }

  /**
   * The reference reading of a parse: the leaves taken one by one, each
   * parsed on its own, stopping at the first leaf that fails.
   */
  function ParseLeaves(ls: seq<string>): (r: Result<CondExpr, ParseError>)
    ensures r.Success? <==> forall i :: 0 <= i < |ls| ==> ParseString(ls[i]).Success?
    ensures r.Success? ==> |r.value| == |ls|
    ensures r.Success? ==> forall i :: 0 <= i < |ls| ==> r.value[i] == ParseString(ls[i]).value
    decreases |ls|
  {
    if ls == [] then Success([])
    else
      var first := ParseString(ls[0]);
      if first.Failure? then Failure(first.error)
      else
        var rest := ParseLeaves(ls[1..]);
        if rest.Failure? then
          ghost var i :| 0 <= i < |ls| - 1 && ParseString(ls[1..][i]).Failure?;
          assert ls[i + 1] == ls[1..][i];
          rest
        else
          TailParses(ls, first.value, rest.value, ParseString);
          Success([first.value] + rest.value)
  }

  /** Putting a parsed first leaf in front of the parsed remaining leaves, for any per-leaf parser `f`. */
  lemma TailParses(ls: seq<string>, e: Elt, es: CondExpr, f: string -> Result<Elt, ParseError>)
    requires ls != [] && f(ls[0]) == Success(e)
    requires |es| == |ls| - 1
    requires forall i :: 0 <= i < |ls| - 1 ==> f(ls[1..][i]) == Success(es[i])
    ensures forall i :: 0 <= i < |ls| ==> f(ls[i]) == Success(([e] + es)[i])
  {
    forall i | 0 <= i < |ls|
      ensures f(ls[i]) == Success(([e] + es)[i])
    {
      if i == 0 {
        assert ([e] + es)[0] == e;
      } else {
        assert ls[i] == ls[1..][i - 1];
        assert ([e] + es)[i] == es[i - 1];
      }
    }
  }

  /** A failed parse of the leaves reports the leftmost leaf that does not parse. */
  lemma {:induction false} ParseLeavesFirstFailure(ls: seq<string>)
    ensures ParseLeaves(ls).Failure? ==>
      exists k ::
        && 0 <= k < |ls| && ParseString(ls[k]).Failure?
        && ParseLeaves(ls).error == GrammarFailure(ls[k])
        && forall j :: 0 <= j < k ==> ParseString(ls[j]).Success?
    decreases |ls|
  {
    if ls != [] && ParseLeaves(ls).Failure? {
      if ParseString(ls[0]).Failure? {
        assert ParseLeaves(ls).error == GrammarFailure(ls[0]);
      } else {
        var tail := ls[1..];
        FailureSkipsParsedLeaf(ls);
        ParseLeavesFirstFailure(tail);
        var k :| 0 <= k < |tail| && ParseString(tail[k]).Failure?
          && ParseLeaves(tail).error == GrammarFailure(tail[k])
          && forall j :: 0 <= j < k ==> ParseString(tail[j]).Success?;
        assert ls[k + 1] == tail[k];
        forall j | 0 <= j < k + 1
          ensures ParseString(ls[j]).Success?
        {
          if j > 0 {
            assert ls[j] == tail[j - 1];
          }
        }
        assert 0 <= k + 1 < |ls| && ParseString(ls[k + 1]).Failure?
          && ParseLeaves(ls).error == GrammarFailure(ls[k + 1]);
      }
    }
  }

  /** Past a leaf that parses, a failure is the failure of the remaining leaves. */
  lemma FailureSkipsParsedLeaf(ls: seq<string>)
    ensures ls != [] && ParseString(ls[0]).Success? && ParseLeaves(ls).Failure? ==>
      ParseLeaves(ls[1..]).Failure? && ParseLeaves(ls[1..]).error == ParseLeaves(ls).error
  {
  }

  lemma {:induction false} LeavesAppend(a: seq<Token>, b: seq<Token>)
    ensures Leaves(a + b) == Leaves(a) + Leaves(b)
    decreases |a|
  {
    if a != [] {
      assert (a + b)[0] == a[0];
      assert (a + b)[1..] == a[1..] + b;
      LeavesAppend(a[1..], b);
    } else {
      assert a + b == b;
    }
  }

  lemma {:induction false} ParseLeavesAppend(a: seq<string>, b: seq<string>)
    ensures ParseLeaves(a + b) == Splice(ParseLeaves(a), ParseLeaves(b))
    decreases |a|
  {
    if a == [] {
      assert a + b == b;
      var y := ParseLeaves(b);
      if y.Success? {
        assert [] + y.value == y.value;
      }
    } else {
      assert (a + b)[0] == a[0];
      assert (a + b)[1..] == a[1..] + b;
      ParseLeavesAppend(a[1..], b);
      var first := ParseString(a[0]);
      var restA := ParseLeaves(a[1..]);
      var restB := ParseLeaves(b);
      if first.Success? && restA.Success? && restB.Success? {
        assert [first.value] + (restA.value + restB.value) == ([first.value] + restA.value) + restB.value;
      }
    }
  }

  /**
   * Flattening: parsing a token tree is parsing the sequence of its string
   * leaves, left to right.
   */
  lemma {:induction false} ParseFlattens(ts: seq<Token>)
    ensures ParseTokens(ts) == ParseLeaves(Leaves(ts))
    decreases ts
  {
    if ts != [] {
      ParseFlattens(ts[1..]);
      match ts[0]
      case Str(v) =>
        assert Leaves(ts) == [v] + Leaves(ts[1..]);
        ParseLeavesAppend([v], Leaves(ts[1..]));
      case List(items) =>
        ParseFlattens(items);
        ParseLeavesAppend(Leaves(items), Leaves(ts[1..]));
    }
  }

  /**
   * A parse succeeds exactly when every string leaf parses on its own; it
   * then yields one element per leaf, in order, and otherwise fails on the
   * leftmost leaf that does not parse.
   */
  lemma ParseTokensLeafwise(ts: seq<Token>)
    ensures ParseTokens(ts).Success? <==>
      forall i :: 0 <= i < |Leaves(ts)| ==> ParseString(Leaves(ts)[i]).Success?
    ensures ParseTokens(ts).Success? ==>
      |ParseTokens(ts).value| == |Leaves(ts)|
      && forall i :: 0 <= i < |Leaves(ts)| ==> ParseTokens(ts).value[i] == ParseString(Leaves(ts)[i]).value
    ensures ParseTokens(ts).Failure? ==>
      exists k :: 0 <= k < |Leaves(ts)| && ParseString(Leaves(ts)[k]).Failure?
        && ParseTokens(ts).error == GrammarFailure(Leaves(ts)[k])
        && forall j :: 0 <= j < k ==> ParseString(Leaves(ts)[j]).Success?
  {
    ParseFlattens(ts);
    if ParseTokens(ts).Failure? {
      ParseLeavesFirstFailure(Leaves(ts));
    }
  }

  /** Parsing distributes over concatenation of token lists. */
  lemma ParseDistributes(a: seq<Token>, b: seq<Token>)
    ensures ParseTokens(a + b) == Splice(ParseTokens(a), ParseTokens(b))
  {
    ParseFlattens(a + b);
    ParseFlattens(a);
    ParseFlattens(b);
    LeavesAppend(a, b);
    ParseLeavesAppend(Leaves(a), Leaves(b));
  }

  /** A nested list parses exactly as if its tokens were written in place. */
  lemma NestedListSplices(prefix: seq<Token>, items: seq<Token>, suffix: seq<Token>)
    ensures ParseTokens(prefix + [List(items)] + suffix) == ParseTokens(prefix + items + suffix)
  {
    ParseFlattens(prefix + [List(items)] + suffix);
    ParseFlattens(prefix + items + suffix);
    LeavesAppend(prefix + [List(items)], suffix);
    LeavesAppend(prefix, [List(items)]);
    LeavesAppend(prefix + items, suffix);
    LeavesAppend(prefix, items);
    assert [List(items)][1..] == [];
    assert Leaves([List(items)]) == Leaves(items);
    assert Leaves(prefix + [List(items)] + suffix) == Leaves(prefix + items + suffix);
  }

  /** A bare link operator token is `AND` or `OR` padded with white space only. */
  lemma OperatorWordIsPadded(v: string)
    ensures IsOperatorWord(v) <==> Padded(v, "AND") || Padded(v, "OR")
  {
    assert !IsSpace('A') && !IsSpace('D') && !IsSpace('O') && !IsSpace('R');
    TrimSpaceIsWord(v, "AND");
    TrimSpaceIsWord(v, "OR");
  }

  /**
   * The link operator check comes before the grammar: `" AND "` splits into
   * three parts and would parse as a condition, yet it becomes an operator
   * element holding the untrimmed text.
   */
  lemma OperatorBeforeGrammar()
    ensures ParseCondition(" AND ").Success?
    ensures ParseString(" AND ") == Success(Op(" AND "))
  {
    PaddedAndSplits(" AND ");
    PaddedAndTrims(" AND ");
  }

  /** `" AND "` has no prefix to strip and holds exactly two spaces. */
  lemma PaddedAndSplits(v: string)
    requires v == " AND "
    ensures Occurrences(Remainder(v), ' ') == 2
  {
    assert !HasPrefix(v, "AND ") && !HasPrefix(v, "OR ") && !HasPrefix(v, "if_present ") by {
      assert v[0] == ' ';
    }
    assert Remainder(v) == v;
    assert v[1..][1..][1..][1..][1..] == [];
    assert Occurrences(v[1..][1..][1..][1..], ' ') == 1;
    assert Occurrences(v[1..], ' ') == 1;
  }

  /** `" AND "` trims to the operator `AND`. */
  lemma PaddedAndTrims(v: string)
    requires v == " AND "
    ensures IsOperatorWord(v)
  {
    assert v[1..4] == "AND" && v[..1] == " " && v[4..] == " ";
    TrimSpaceOfPadded(v, "AND", 1, 4);
  }

  /** A padded word starts with white space or with the word's first character. */
  lemma PaddedFirstChar(v: string, w: string)
    requires v != [] && w != []
    ensures Padded(v, w) ==> IsSpace(v[0]) || v[0] == w[0]
  {
    if Padded(v, w) {
      var i, j :| 0 <= i <= j <= |v| && v[i..j] == w && AllSpace(v[..i]) && AllSpace(v[j..]);
      if i > 0 {
        assert v[..i][0] == v[0];
      } else {
        assert v[i..j][0] == v[0];
      }
    }
  }

  /** A token starting with a character other than white space, `A` or `O` is no bare link operator. */
  lemma NotOperatorWord(v: string)
    requires v != [] && !IsSpace(v[0]) && v[0] != 'A' && v[0] != 'O'
    ensures !IsOperatorWord(v)
  {
    OperatorWordIsPadded(v);
    PaddedFirstChar(v, "AND");
    PaddedFirstChar(v, "OR");
  }

  /** A padded word ends with white space or with the word's last character. */
  lemma PaddedLastChar(v: string, w: string)
    requires v != [] && w != []
    ensures Padded(v, w) ==> IsSpace(v[|v| - 1]) || v[|v| - 1] == w[|w| - 1]
  {
    if Padded(v, w) {
      var i, j :| 0 <= i <= j <= |v| && v[i..j] == w && AllSpace(v[..i]) && AllSpace(v[j..]);
      if j < |v| {
        assert v[j..][|v| - 1 - j] == v[|v| - 1];
      } else {
        assert v[i..j][|w| - 1] == v[|v| - 1];
      }
    }
  }

  /**
   * A token with no white space at either end is no bare link operator
   * unless it runs from `A` to `D` or from `O` to `R`; this covers linked
   * clauses such as `OR col op @arg`, which the first character alone does
   * not rule out.
   */
  lemma NotOperatorWordAtEnds(v: string)
    requires v != [] && !IsSpace(v[0]) && !IsSpace(v[|v| - 1])
    requires !(v[0] == 'A' && v[|v| - 1] == 'D') && !(v[0] == 'O' && v[|v| - 1] == 'R')
    ensures !IsOperatorWord(v)
  {
    OperatorWordIsPadded(v);
    PaddedFirstChar(v, "AND");
    PaddedFirstChar(v, "OR");
    PaddedLastChar(v, "AND");
    PaddedLastChar(v, "OR");
  }

  lemma SpliceEmpty(x: Result<CondExpr, ParseError>)
    ensures Splice(x, Success([])) == x
  {
    if x.Success? {
      assert x.value + [] == x.value;
    }
  }

  /** A one-token list parses to what its single string token parses to. */
  lemma SingleStringToken(v: string)
    ensures ParseTokens([Str(v)]) == ParseStringToken(v)
  {
    assert ParseTokens([Str(v)]) == Splice(ParseStringToken(v), ParseTokens([]));
    SpliceEmpty(ParseStringToken(v));
  }

  /**
   * A grammatical condition written as a token parses back to that
   * condition, unless its text is a padded `AND`/`OR`, which the source
   * classifies as a link operator first.
   */
  lemma ConditionTokenRoundTrip(c: Condition)
    requires Grammatical(c) && !IsOperatorWord(Source(c))
    ensures ParseString(Source(c)) == Success(Cond(c))
    ensures ParseTokens([Str(Source(c))]) == Success([Cond(c)])
  {
    var v := Source(c);
    assert |v| >= 2;
    ParseSource(c);
    SingleStringToken(v);
  }
}
