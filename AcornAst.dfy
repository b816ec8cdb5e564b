/** The part of the JavaScript syntax tree (as produced by acorn) that the
    state scanner and the object-literal parser inspect. Node kinds the code
    never distinguishes are collapsed into one alternative each. */
module AcornAst {
  import opened Js

  datatype Expr =
    | Literal(value: JsValue)                            // a string, number, boolean or null literal
    | Identifier(name: string)
    | CallExpression(callee: Expr, arguments: seq<Expr>)
    | ObjectExpression(properties: seq<PropEntry>)
    | OtherExpression                                    // member access, array literal, template, ...

  /** An entry of an object literal: `key: value` or `...argument`. */
  datatype PropEntry =
    | Property(key: Expr, value: Expr)
    | SpreadElement(argument: Expr)

  /** The binding target of a declarator: a plain name or a destructuring
      pattern. */
  datatype Pattern = IdentifierPattern(name: string) | OtherPattern

  /** `id = init` inside a `var`/`let`/`const` declaration. */
  datatype Declarator = VariableDeclarator(id: Pattern, init: Option<Expr>)
}
