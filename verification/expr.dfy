/**
 * The data model of the condition engine: raw configuration tokens, the
 * parsed condition leaf, the three kinds of expression element and the
 * argument map consulted at render time.
 */
module Expr {

  /**
   * A raw token from the configuration: a string, or a nested list of tokens.
   * The source holds these as `[]interface{}`; any other dynamic shape is
   * ruled out by this closed type.
   */
  datatype Token = Str(text: string) | List(items: seq<Token>)

  /** The two modalities a parsed condition can carry. */
  const Must: string := "must"
  const IfPresent: string := "if_present"

  /**
   * One SQL condition `ColumnName Operator ArgName`, with its link operator
   * (`""`, `"AND"` or `"OR"`) and modality. The fields are plain strings, as
   * in the source, so that a condition built by hand may hold any value.
   */
  datatype Condition = Condition(
    modality: string,
    linkOperator: string,
    columnName: string,
    operator: string,
    argName: string)

  /** The three space-separated parts of a condition, as they are rendered. */
  function ClauseText(c: Condition): string {
    c.columnName + " " + c.operator + " " + c.argName
  }

  /**
   * An element of a parsed expression: a condition leaf, a grouping
   * separator (`(` or `)`) or a bare link operator token (`AND`/`OR`,
   * kept untrimmed).
   */
  datatype Elt = Cond(cond: Condition) | Sep(sep: string) | Op(op: string)

  /** A parsed expression: a flat sequence of elements. */
  type CondExpr = seq<Elt>

  /**
   * The named arguments supplied at render time. Only the presence of a key
   * is ever consulted, so the values are not modelled; `NilArgs` is a nil map.
   */
  datatype FilterArgs = NilArgs | Args(keys: set<string>)
}
