/**
 * The query expressions the selector builds: a small tagged union standing for the
 * comparison, `&`, `|` and `~` operators of the table's query builder, with their
 * meaning on one row.
 */
module Query {
  import opened Inventory

  datatype Pred =
    | True                                   // the literal `True` a conjunction starts from
    | And(left: Pred, right: Pred)           // `left & right`
    | Or(left: Pred, right: Pred)            // `left | right`
    | Not(operand: Pred)                     // `~operand`
    | Eq(col: Column, value: string)         // `column == value`
    | Ne(col: Column, value: string)         // `column != value`
    | StartsWith(col: Column, value: string) // `column.startswith(value)`
    | Includes(col: Column, value: string)   // `column.contains(value)`
    | In(col: Column, values: seq<string>)   // `column.in_(values)`

  /** Whether row `a` satisfies `p`. */
  function Eval(p: Pred, a: Activity): bool {
    match p
    case True => true
    case And(l, r) => Eval(l, a) && Eval(r, a)
    case Or(l, r) => Eval(l, a) || Eval(r, a)
    case Not(q) => !Eval(q, a)
    case Eq(c, v) => Get(a, c) == v
    case Ne(c, v) => Get(a, c) != v
    case StartsWith(c, v) => v <= Get(a, c)
    case Includes(c, v) => Contains(Get(a, c), v)
    case In(c, vs) => Get(a, c) in vs
  }
}
