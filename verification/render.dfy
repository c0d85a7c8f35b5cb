/**
 * Rendering a parsed expression to SQL text: one left-to-right pass that
 * carries a single flag, whether a condition has been rendered yet.
 */
module Render {
  import opened Wrappers
  import opened Expr

  /** The state threaded through a render pass. */
  datatype ParseHint = ParseHint(exprNotEmpty: bool)

  /** A nil argument map, or an argument name too short to carry its `@` prefix and a name. */
  datatype RenderError = NilArgMap | ArgNameTooShort(argName: string)

  /** The error rendering `c` raises against `args`, whatever its modality, if any. */
  function ConditionError(c: Condition, args: FilterArgs): Option<RenderError> {
    if args.NilArgs? then Some(NilArgMap)
    else if |c.argName| < 2 then Some(ArgNameTooShort(c.argName))
    else None
  }

  /** An element that is a condition that fails to render. */
  predicate Faulty(e: Elt, args: FilterArgs) {
    e.Cond? && ConditionError(e.cond, args).Some?
  }

  /**
   * An element that is a condition that renders to text: it raises no error
   * and, when it is `if_present`, the argument named after its `@` prefix is
   * supplied.
   */
  predicate Emits(e: Elt, args: FilterArgs) {
    && e.Cond?
    && ConditionError(e.cond, args).None?
    && (e.cond.modality == IfPresent ==> e.cond.argName[1..] in args.keys)
  }

  /** `Condition.ToSQL`. */
  function ConditionToSQL(c: Condition, h: ParseHint, args: FilterArgs): (r: Result<string, RenderError>)
    ensures r.Failure? <==> ConditionError(c, args).Some?
    ensures r.Failure? ==> r.error == ConditionError(c, args).value
    ensures r.Success? ==> (r.value != "" <==> Emits(Cond(c), args))
    ensures Emits(Cond(c), args) && (c.linkOperator == "" || !h.exprNotEmpty) ==>
      r == Success(ClauseText(c))
    ensures Emits(Cond(c), args) && c.linkOperator != "" && h.exprNotEmpty ==>
      r == Success(" " + c.linkOperator + " " + ClauseText(c))
  {
    if args.NilArgs? then Failure(NilArgMap)
    else if |c.argName| < 2 then Failure(ArgNameTooShort(c.argName))
    else if c.modality == IfPresent && c.argName[1..] !in args.keys then Success("")
    else
      if c.linkOperator != "" && h.exprNotEmpty then Success(" " + c.linkOperator + " " + ClauseText(c))
      else Success(ClauseText(c))
  }

  /**
   * One element's rendering. Separators emit their text and link operator
   * tokens emit themselves between single spaces; neither looks at the
   * state or the arguments, so neither can fail.
   */
  function EltToSQL(e: Elt, h: ParseHint, args: FilterArgs): (r: Result<string, RenderError>)
    ensures r.Failure? <==> Faulty(e, args)
    ensures e.Sep? ==> r == Success(e.sep)
    ensures e.Op? ==> r == Success(" " + e.op + " ")
  {
    match e
    case Sep(t) => Success(t)
    case Op(v) => Success(" " + v + " ")
    case Cond(c) => ConditionToSQL(c, h, args)
  }

  /** The strings of `ss`, concatenated in order. */
  function Concat(ss: seq<string>): string {
    if ss == [] then "" else ss[0] + Concat(ss[1..])
  }

  /** Some element of `es` is a condition that renders. */
  predicate AnyEmitted(es: CondExpr, args: FilterArgs) {
    exists j :: 0 <= j < |es| && Emits(es[j], args)
  }

  /** The text one element contributes, given whether a condition was rendered before it. */
  function Piece(e: Elt, prior: bool, args: FilterArgs): string {
    match e
    case Sep(t) => t
    case Op(v) => " " + v + " "
    case Cond(c) =>
      if !Emits(e, args) then ""
      else if c.linkOperator != "" && prior then " " + c.linkOperator + " " + ClauseText(c)
      else ClauseText(c)
  }

  /**
   * The reference rendering, stated by position: element `i` contributes its
   * piece, and a condition's link operator is written exactly when some
   * condition before position `i` (or before the expression, `prior`) rendered.
   */
  function Pieces(es: CondExpr, prior: bool, args: FilterArgs): (ps: seq<string>)
    ensures |ps| == |es|
  {
    seq(|es|, i requires 0 <= i < |es| => Piece(es[i], prior || AnyEmitted(es[..i], args), args))
  }

  lemma PiecesShift(es: CondExpr, prior: bool, args: FilterArgs)
    requires es != []
    ensures Pieces(es, prior, args)
      == [Piece(es[0], prior, args)] + Pieces(es[1..], prior || Emits(es[0], args), args)
  {
    var p := Pieces(es, prior, args);
    var q := Pieces(es[1..], prior || Emits(es[0], args), args);
    assert !AnyEmitted(es[..0], args);
    forall i | 1 <= i < |es|
      ensures p[i] == q[i - 1]
    {
      assert es[..i][0] == es[0];
      assert es[1..][..i - 1] == es[..i][1..];
      if AnyEmitted(es[..i], args) && !Emits(es[0], args) {
        var j :| 0 <= j < i && Emits(es[..i][j], args);
        assert es[1..][..i - 1][j - 1] == es[..i][j];
      }
      if AnyEmitted(es[1..][..i - 1], args) {
        var j :| 0 <= j < i - 1 && Emits(es[1..][..i - 1][j], args);
        assert es[..i][j + 1] == es[1..][..i - 1][j];
      }
    }
  }

  /** The state after an element rendered to `s`: set once a condition has produced text. */
  function Advance(e: Elt, s: string, h: ParseHint): ParseHint {
    if s != "" && e.Cond? then ParseHint(true) else h
  }

  /**
   * The render loop from a given state onwards: each element in order, the
   * state becoming true once a condition has produced text, and the first
   * failing element aborting the pass.
   */
  function RenderFrom(es: CondExpr, h: ParseHint, args: FilterArgs): (r: Result<string, RenderError>)
    ensures r.Failure? <==> exists i :: 0 <= i < |es| && Faulty(es[i], args)
    ensures r.Failure? ==>
      exists k :: 0 <= k < |es| && es[k].Cond? && ConditionError(es[k].cond, args) == Some(r.error)
        && forall j :: 0 <= j < k ==> !Faulty(es[j], args)
    ensures r.Success? ==> r.value == Concat(Pieces(es, h.exprNotEmpty, args))
    decreases |es|
  {
    if es == [] then Success("")
    else
      var first := EltToSQL(es[0], h, args);
      if first.Failure? then
        first.PropagateFailure()
      else
        var s := first.value;
        var rest := RenderFrom(es[1..], Advance(es[0], s, h), args);
        assert forall i :: 1 <= i < |es| ==> es[i] == es[1..][i - 1];
        if rest.Failure? then
          ghost var k :| 0 <= k < |es| - 1 && es[1..][k].Cond?
            && ConditionError(es[1..][k].cond, args) == Some(rest.error)
            && forall j :: 0 <= j < k ==> !Faulty(es[1..][j], args);
          assert forall j :: 0 <= j < k + 1 ==> !Faulty(es[j], args);
          rest.PropagateFailure()
        else
          PiecesShift(es, h.exprNotEmpty, args);
          Success(s + rest.value)
  }

  /** `CondExpr.ToSQL`: the state is reset at the first element, so the incoming hint is never read. */
  function ExprToSQL(es: CondExpr, h: ParseHint, args: FilterArgs): (r: Result<string, RenderError>)
    ensures r.Failure? <==> exists i :: 0 <= i < |es| && Faulty(es[i], args)
    ensures r.Failure? ==>
      exists k :: 0 <= k < |es| && es[k].Cond? && ConditionError(es[k].cond, args) == Some(r.error)
        && forall j :: 0 <= j < k ==> !Faulty(es[j], args)
    ensures r.Success? ==> r.value == Concat(Pieces(es, false, args))
  {
    if es == [] then Success("")
    else RenderFrom(es, ParseHint(false), args)
  }

  /** The top-level `ToSQL`: renders from the zero hint. */
  function ToSQL(es: CondExpr, args: FilterArgs): (r: Result<string, RenderError>)
    ensures r.Failure? <==> exists i :: 0 <= i < |es| && Faulty(es[i], args)
    ensures r.Failure? ==>
      exists k :: 0 <= k < |es| && es[k].Cond? && ConditionError(es[k].cond, args) == Some(r.error)
        && forall j :: 0 <= j < k ==> !Faulty(es[j], args)
    ensures r.Success? ==> r.value == Concat(Pieces(es, false, args))
  {
    ExprToSQL(es, ParseHint(false), args)
  }

  /** Two renders in sequence: the first failure wins, otherwise the texts are concatenated. */
  function Then(x: Result<string, RenderError>, y: Result<string, RenderError>): Result<string, RenderError> {
    if x.Failure? then x
    else if y.Failure? then y
    else Success(x.value + y.value)
  }

  lemma AnyEmittedCons(es: CondExpr, args: FilterArgs)
    requires es != []
    ensures AnyEmitted(es, args) <==> Emits(es[0], args) || AnyEmitted(es[1..], args)
  {
    if AnyEmitted(es, args) && !Emits(es[0], args) {
      var j :| 0 <= j < |es| && Emits(es[j], args);
      assert es[1..][j - 1] == es[j];
    }
    if AnyEmitted(es[1..], args) {
      var j :| 0 <= j < |es| - 1 && Emits(es[1..][j], args);
      assert es[j + 1] == es[1..][j];
    }
  }

  /** The state after element `e`, stated through `Emits` rather than through its text. */
  function Next(e: Elt, h: ParseHint, args: FilterArgs): ParseHint {
    ParseHint(h.exprNotEmpty || Emits(e, args))
  }

  lemma RenderUnfold(es: CondExpr, h: ParseHint, args: FilterArgs)
    requires es != []
    ensures RenderFrom(es, h, args)
      == Then(EltToSQL(es[0], h, args), RenderFrom(es[1..], Next(es[0], h, args), args))
  {
    var first := EltToSQL(es[0], h, args);
    if first.Success? {
      assert Advance(es[0], first.value, h) == Next(es[0], h, args);
    }
  }

  lemma ThenAssociates(x: Result<string, RenderError>, y: Result<string, RenderError>, z: Result<string, RenderError>)
    ensures Then(x, Then(y, z)) == Then(Then(x, y), z)
  {
    if x.Success? && y.Success? && z.Success? {
      assert x.value + (y.value + z.value) == (x.value + y.value) + z.value;
    }
  }

  /**
   * Rendering is compositional: rendering `a + b` renders `a` and then `b`,
   * starting `b` from the state `a` leaves behind, which is set exactly
   * when a condition in `a` rendered.
   */
  lemma {:induction false} RenderAppend(a: CondExpr, b: CondExpr, h: ParseHint, args: FilterArgs)
    ensures RenderFrom(a + b, h, args)
      == Then(RenderFrom(a, h, args), RenderFrom(b, ParseHint(h.exprNotEmpty || AnyEmitted(a, args)), args))
    decreases |a|
  {
    if a == [] {
      assert a + b == b;
      assert ParseHint(h.exprNotEmpty) == h;
      var y := RenderFrom(b, h, args);
      if y.Success? {
        assert "" + y.value == y.value;
      }
    } else {
      var h' := Next(a[0], h, args);
      assert (a + b)[0] == a[0];
      assert (a + b)[1..] == a[1..] + b;
      RenderUnfold(a + b, h, args);
      RenderUnfold(a, h, args);
      RenderAppend(a[1..], b, h', args);
      AnyEmittedCons(a, args);
      assert ParseHint(h'.exprNotEmpty || AnyEmitted(a[1..], args))
        == ParseHint(h.exprNotEmpty || AnyEmitted(a, args));
      ThenAssociates(EltToSQL(a[0], h, args), RenderFrom(a[1..], h', args),
        RenderFrom(b, ParseHint(h.exprNotEmpty || AnyEmitted(a, args)), args));
    }
  }

  /** A condition that renders to nothing leaves the state as it was. */
  lemma SilentConditionSkipped(e: Elt, rest: CondExpr, h: ParseHint, args: FilterArgs)
    requires e.Cond? && !Faulty(e, args) && !Emits(e, args)
    ensures RenderFrom([e] + rest, h, args) == RenderFrom(rest, h, args)
  {
    assert ([e] + rest)[1..] == rest;
    var y := RenderFrom(rest, h, args);
    if y.Success? {
      assert "" + y.value == y.value;
    }
  }

  /**
   * An `if_present` condition whose argument is not supplied is invisible:
   * deleting it from the expression changes neither the text nor the
   * link operators written for the conditions after it.
   */
  lemma GatedOutInvisible(es: CondExpr, i: nat, args: FilterArgs)
    requires i < |es| && es[i].Cond? && !Faulty(es[i], args) && !Emits(es[i], args)
    ensures ToSQL(es[..i] + es[i + 1..], args) == ToSQL(es, args)
  {
    var h := ParseHint(false);
    var pre := es[..i];
    var post := es[i + 1..];
    assert es == pre + ([es[i]] + post);
    RenderAppend(pre, [es[i]] + post, h, args);
    RenderAppend(pre, post, h, args);
    SilentConditionSkipped(es[i], post, ParseHint(AnyEmitted(pre, args)), args);
  }

  /** A separator is opaque text: it neither fails nor changes the state the next element sees. */
  lemma SeparatorKeepsState(t: string, rest: CondExpr, h: ParseHint, args: FilterArgs)
    ensures RenderFrom([Sep(t)] + rest, h, args) == Then(Success(t), RenderFrom(rest, h, args))
  {
    assert ([Sep(t)] + rest)[1..] == rest;
  }

  /**
   * The first condition that actually renders contributes its clause text
   * alone, whatever its link operator: the output is the rendering of the
   * elements before it, then its clause, then the rest rendered with the
   * state set.
   */
  lemma FirstRenderedHasNoLink(es: CondExpr, i: nat, args: FilterArgs)
    requires ToSQL(es, args).Success?
    requires i < |es| && Emits(es[i], args) && !AnyEmitted(es[..i], args)
    ensures RenderFrom(es[i + 1..], ParseHint(true), args).Success?
    ensures ToSQL(es, args).value
      == ToSQL(es[..i], args).value + ClauseText(es[i].cond)
         + RenderFrom(es[i + 1..], ParseHint(true), args).value
  {
    var h := ParseHint(false);
    var pre := es[..i];
    var post := es[i + 1..];
    var whole := RenderFrom(es, h, args);
    var front := RenderFrom(pre, h, args);
    var mid := RenderFrom([es[i]] + post, h, args);
    var clause := ConditionToSQL(es[i].cond, h, args);
    var back := RenderFrom(post, ParseHint(true), args);
    assert ToSQL(es, args) == whole;
    assert ToSQL(pre, args) == front;
    assert whole == Then(front, mid) by {
      assert es == pre + ([es[i]] + post);
      RenderAppend(pre, [es[i]] + post, h, args);
      assert ParseHint(h.exprNotEmpty || AnyEmitted(pre, args)) == h;
    }
    assert mid == Then(clause, back) by {
      RenderUnfold([es[i]] + post, h, args);
      assert ([es[i]] + post)[1..] == post;
      assert Next(es[i], h, args) == ParseHint(true);
    }
    assert clause == Success(ClauseText(es[i].cond));
    assert whole.value == front.value + (ClauseText(es[i].cond) + back.value);
  }

  /**
   * With a nil argument map the render fails exactly when the expression
   * holds a condition, and it fails with the nil-map error.
   */
  lemma NilArgsFailOnCondition(es: CondExpr)
    ensures ToSQL(es, NilArgs).Failure? <==> exists i :: 0 <= i < |es| && es[i].Cond?
    ensures ToSQL(es, NilArgs).Failure? ==> ToSQL(es, NilArgs).error == NilArgMap
  {
    if exists i :: 0 <= i < |es| && es[i].Cond? {
      var i :| 0 <= i < |es| && es[i].Cond?;
      assert Faulty(es[i], NilArgs);
    }
  }
}
