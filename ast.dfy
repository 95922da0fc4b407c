/** Tokens handed to the recursive-descent parser and the abstract syntax
    tree it builds. */
module MiniCAst {
  import opened Wrappers

  /** The token tags of the recursive-descent lexer. T_EMPTY is the value of
      the lookahead before the first token has been read. */
  datatype Tag =
    | T_EMPTY | T_EOF
    | T_DIGIT | T_ID | T_INT | T_RETURN
    | T_L_PAREN | T_R_PAREN | T_L_BRACE | T_R_BRACE
    | T_COMMA | T_SEMICOLON | T_ASSIGN

  /** One token with the attributes the lexer leaves in its value record:
      the literal for T_DIGIT, the name for T_ID, and the source line. */
  datatype Token = Token(tag: Tag, num: int, id: string, line: int)

  /** Operator kinds of the AST nodes the parser creates. */
  datatype Kind =
    | OpCompileUnit | OpFuncDef | OpBlock | OpDeclStmt | OpVarDecl | OpAssign | OpReturn | OpLiteral

  /** Kind-specific payload: the value of a literal, the name of a function
      or a declared variable (the declared type is always int here). */
  datatype Attr = NoAttr | IntLit(value: int, line: int) | Name(id: string, line: int)

  /** A node owns its ordered children; the AST is a strict tree. */
  datatype Ast = Ast(kind: Kind, attr: Attr, children: seq<Ast>)

  /** The messages the parser reports. */
  datatype Message =
    | MissingReturnSemicolon   // no ';' after a return statement
    | AssignWithoutLeft        // '=' with no left-hand expression
    | IdAfterComma             // ',' not followed by an identifier
    | IllegalToken(tag: Tag)   // token that cannot continue a declaration list
    | IdAfterType              // type not followed by an identifier
    | MissingRBrace            // block not closed
    | MissingRParen            // function definition without ')'
    | MissingLParen            // function definition without '('
    | EofMismatch              // input does not end after the function

  /** One reported error: the lexer's current line and the message. */
  datatype Diagnostic = Diagnostic(line: int, msg: Message)

  // Node constructors used by the parser rules.

  function LiteralNode(t: Token): Ast {
    Ast(OpLiteral, IntLit(t.num, t.line), [])
  }

  function VarDeclNode(t: Token): Ast {
    Ast(OpVarDecl, Name(t.id, t.line), [])
  }

  /** Optional children: a null child is not inserted. */
  function Opt(e: Option<Ast>): seq<Ast> {
    if e.Some? then [e.value] else []
  }

  function ReturnNode(e: Option<Ast>): Ast {
    Ast(OpReturn, NoAttr, Opt(e))
  }

  function AssignNode(left: Ast, right: Option<Ast>): Ast {
    Ast(OpAssign, NoAttr, [left] + Opt(right))
  }

  function FuncDefNode(id: Token, body: Option<Ast>): Ast {
    Ast(OpFuncDef, Name(id.id, id.line), Opt(body))
  }

  function EmptyBlock(): Ast {
    Ast(OpBlock, NoAttr, [])
  }

  function Append(parent: Ast, child: Ast): Ast {
    parent.(children := parent.children + [child])
  }
}
