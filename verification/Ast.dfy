/** The expression part of the syntax tree (situc/ast.py), without source spans. */
module Ast {
  import opened Prelude

  datatype UnaryOp = Negate | Complement | LogicalNot

  datatype BinaryOp =
    | Add | Sub | Mul | Div | Mod
    | BitAnd | BitOr | BitXor | Shl | Shr
    | Eq | Ne | Lt | Gt | Le | Ge
    | LogicalAnd | LogicalOr

  datatype Expr =
    | IntLit(value: int, text: string)
    | CharLit(code: int)
    | StrLit
    | NameRef(name: string)
    | Access(base: Expr, member: string)
    | Index(base: Expr, index: Option<Expr>)
    | Unary(uop: UnaryOp, operand: Expr)
    | Binary(op: BinaryOp, left: Expr, right: Expr)
    | Call(fn: string, args: seq<Expr>)
    | Remaining

  /** `path_text`: the dotted spelling of a path, or None for anything else. */
  function PathText(e: Expr): Option<string> {
    match e
    case NameRef(name) => Some(name)
    case Access(base, member) =>
      (match PathText(base)
       case Some(b) => Some(b + "." + member)
       case None => None)
    case Index(base, index) =>
      (match PathText(base)
       case None => None
       case Some(b) =>
         match index
         case None => Some(b + "[]")
         case Some(IntLit(_, text)) => Some(b + "[" + text + "]")
         case Some(_) => None)
    case _ => None
  }

  /** `same_expression`: is this one value written twice? */
  predicate SameExpression(l: Expr, r: Expr) {
    match (l, r)
    case (IntLit(a, _), IntLit(b, _)) => a == b
    case (NameRef(a), NameRef(b)) => a == b
    case (Access(p, a), Access(q, b)) => a == b && SameExpression(p, q)
    case (Unary(o, x), Unary(p, y)) => o == p && SameExpression(x, y)
    case (Binary(o, a, b), Binary(p, c, d)) => o == p && SameExpression(a, c) && SameExpression(b, d)
    case (Call(f, xs), Call(g, ys)) =>
      f == g && |xs| == |ys| && forall i | 0 <= i < |xs| :: SameExpression(xs[i], ys[i])
    case _ => false
  }
}
