/** The recursive-descent parser: one method per grammar rule. The lexer's
    output is a token sequence and the shared parse state (how many tokens
    the lexer has handed out, the error counter and the diagnostics printed
    so far) is threaded through every rule. */
module RecursiveDescent {
  import opened Wrappers
  import opened MiniCAst

  /** `read` tokens have been taken from the lexer; the last of them is the
      lookahead. `errors` is the error counter, `log` the diagnostic lines. */
  datatype PState = PState(read: nat, errors: nat, log: seq<Diagnostic>)

  function EndLine(toks: seq<Token>): int {
    if |toks| == 0 then 1 else toks[|toks| - 1].line
  }

  /** Token number i of the lexer: before the first read the lookahead is
      T_EMPTY, past the end of input the lexer keeps answering T_EOF. */
  function Lex(toks: seq<Token>, i: int): Token {
    if i < 0 then Token(T_EMPTY, 0, "", 1)
    else if i < |toks| then toks[i]
    else Token(T_EOF, 0, "", EndLine(toks))
  }

  /** The lookahead token. */
  function Look(toks: seq<Token>, s: PState): Token {
    Lex(toks, s.read - 1)
  }

  /** The state after the lexer hands out one more token. */
  function Next(s: PState): PState {
    s.(read := s.read + 1)
  }

  /** The state after one reported error at the lexer's current line. */
  function Report(toks: seq<Token>, s: PState, m: Message): PState {
    s.(errors := s.errors + 1, log := s.log + [Diagnostic(Look(toks, s).line, m)])
  }

  /** Tokens of real input not yet read: the termination measure of the
      rules that loop or recurse. */
  function Remaining(toks: seq<Token>, s: PState): nat {
    if s.read > |toks| then 0 else |toks| + 1 - s.read
  }

  /** What every rule does to the shared state: the lexer only moves
      forward, diagnostics are only appended, and the counter grows by one
      per appended diagnostic. */
  ghost predicate Grows(s: PState, s': PState) {
    && s.read <= s'.read
    && s.log <= s'.log
    && s'.errors - s.errors == |s'.log| - |s.log|
  }

  /** Reading past a lookahead that is not the end of input shrinks the
      measure. */
  lemma ConsumedReal(toks: seq<Token>, s: PState, s': PState)
    requires Look(toks, s).tag != T_EOF && s'.read > s.read
    ensures Remaining(toks, s') < Remaining(toks, s)
  {
  }

  /** The literal node `expr` builds from token i, if it is a T_DIGIT. */
  function ExprAt(toks: seq<Token>, i: int): Option<Ast> {
    if Lex(toks, i).tag == T_DIGIT then Some(LiteralNode(Lex(toks, i))) else None
  }

  /** The state after `return expr? ;` starting with the lookahead on
      `return`: the `;` is consumed, or one error is reported. */
  function ReturnEnd(toks: seq<Token>, s: PState): PState {
    var afterExpr := PState(s.read + 1 + |Opt(ExprAt(toks, s.read))|, s.errors, s.log);
    if Look(toks, afterExpr).tag == T_SEMICOLON then Next(afterExpr)
    else Report(toks, afterExpr, MissingReturnSemicolon)
  }

  // ---------------------------------------------------------------------
  // Lookahead and error reporting

  method Advance(toks: seq<Token>, s: PState) returns (s': PState)
    ensures Look(toks, s') == Lex(toks, s.read)
    ensures s'.read == s.read + 1 && s'.errors == s.errors && s'.log == s.log
  {
    s' := s.(read := s.read + 1);
  }

  /** Consumes the lookahead exactly when it carries `tag`. */
  method Match(toks: seq<Token>, s: PState, tag: Tag) returns (ok: bool, s': PState)
    ensures ok <==> Look(toks, s).tag == tag
    ensures ok ==> s' == Next(s)
    ensures !ok ==> s' == s
  {
    ok := false;
    s' := s;
    if Look(toks, s).tag == tag {
      ok := true;
      s' := Advance(toks, s);
    }
  }

  /** Reports one error at the current line. */
  method SemError(toks: seq<Token>, s: PState, m: Message) returns (s': PState)
    ensures s'.errors == s.errors + 1 && s'.read == s.read
    ensures s'.log == s.log + [Diagnostic(Look(toks, s).line, m)]
  {
    s' := s.(errors := s.errors + 1, log := s.log + [Diagnostic(Look(toks, s).line, m)]);
  }

  // ---------------------------------------------------------------------
  // Expressions and statements

  /** expr : T_DIGIT */
  method Expr(toks: seq<Token>, s: PState) returns (e: Option<Ast>, s': PState)
    ensures e.Some? <==> Look(toks, s).tag == T_DIGIT
    ensures e.Some? ==> e.value == LiteralNode(Look(toks, s)) && s' == Next(s)
    ensures e.None? ==> s' == s
  {
    if Look(toks, s).tag == T_DIGIT {
      var node := LiteralNode(Look(toks, s));
      s' := Advance(toks, s);
      return Some(node), s';
    }
    return None, s;
  }

  /** returnStatement : T_RETURN expr T_SEMICOLON. A missing `;` is
      reported and the node is still built. */
  method ReturnStatement(toks: seq<Token>, s: PState) returns (node: Option<Ast>, s': PState)
    ensures Look(toks, s).tag != T_RETURN ==> node.None? && s' == s
    ensures Look(toks, s).tag == T_RETURN ==>
      node == Some(ReturnNode(ExprAt(toks, s.read))) && s' == ReturnEnd(toks, s)
    ensures Grows(s, s') && s'.errors <= s.errors + 1
    ensures node.Some? ==> s'.read > s.read
  {
    var ok;
    ok, s' := Match(toks, s, T_RETURN);
    if ok {
      var e;
      e, s' := Expr(toks, s');
      var semi;
      semi, s' := Match(toks, s', T_SEMICOLON);
      if !semi {
        s' := SemError(toks, s', MissingReturnSemicolon);
      }
      return Some(ReturnNode(e)), s';
    }
    return None, s;
  }

  /** assignExprStmtTail : T_ASSIGN expr | empty */
  method AssignExprStmtTail(toks: seq<Token>, s: PState, left: Option<Ast>)
    returns (node: Option<Ast>, s': PState)
    ensures Look(toks, s).tag != T_ASSIGN ==> node == left && s' == s
    ensures Look(toks, s).tag == T_ASSIGN && left.None? ==>
      node.None? && s' == Report(toks, Next(s), AssignWithoutLeft)
    ensures Look(toks, s).tag == T_ASSIGN && left.Some? ==>
      node == Some(AssignNode(left.value, ExprAt(toks, s.read)))
      && s'.read == s.read + 1 + |Opt(ExprAt(toks, s.read))|
      && s'.errors == s.errors && s'.log == s.log
    ensures Grows(s, s')
  {
    var ok;
    ok, s' := Match(toks, s, T_ASSIGN);
    if ok {
      if left.None? {
        s' := SemError(toks, s', AssignWithoutLeft);
        return None, s';
      }
      var right;
      right, s' := Expr(toks, s');
      return Some(AssignNode(left.value, right)), s';
    }
    // On T_SEMICOLON (the follow set) or anything else: the left side alone.
    return left, s';
  }

  /** assignExprStmt : expr assignExprStmtTail */
  method AssignExprStmt(toks: seq<Token>, s: PState) returns (node: Option<Ast>, s': PState)
    ensures Look(toks, s).tag == T_DIGIT && Lex(toks, s.read).tag == T_ASSIGN ==>
      node == Some(AssignNode(LiteralNode(Look(toks, s)), ExprAt(toks, s.read + 1)))
      && s'.read == s.read + 2 + |Opt(ExprAt(toks, s.read + 1))| && s'.errors == s.errors
    ensures Look(toks, s).tag == T_DIGIT && Lex(toks, s.read).tag != T_ASSIGN ==>
      node == Some(LiteralNode(Look(toks, s))) && s' == Next(s)
    ensures Look(toks, s).tag == T_ASSIGN ==>
      node.None? && s' == Report(toks, Next(s), AssignWithoutLeft)
    ensures Look(toks, s).tag != T_DIGIT && Look(toks, s).tag != T_ASSIGN ==>
      node.None? && s' == s
    ensures Grows(s, s')
  {
    var left, s1 := Expr(toks, s);
    node, s' := AssignExprStmtTail(toks, s1, left);
  }

  /** statement : T_RETURN expr T_SEMICOLON. The rule recognises return
      statements only; its body is the same as returnStatement's. */
  method Statement(toks: seq<Token>, s: PState) returns (node: Option<Ast>, s': PState)
    ensures Look(toks, s).tag != T_RETURN ==> node.None? && s' == s
    ensures Look(toks, s).tag == T_RETURN ==>
      node == Some(ReturnNode(ExprAt(toks, s.read))) && s' == ReturnEnd(toks, s)
    ensures Grows(s, s') && s'.errors <= s.errors + 1
    ensures node.Some? ==> s'.read > s.read
  {
    node, s' := ReturnStatement(toks, s);
  }

  // ---------------------------------------------------------------------
  // Declarations

  /** The declared-variable nodes for a list of identifiers. */
  function VarDecls(ids: seq<Token>): (r: seq<Ast>)
    ensures |r| == |ids|
  {
    seq(|ids|, i requires 0 <= i < |ids| => VarDeclNode(ids[i]))
  }

  /** Token p onwards reads `, id1 , id2 ... ;` with the identifiers ids. */
  ghost predicate DeclListAt(toks: seq<Token>, p: int, ids: seq<Token>)
    decreases |ids|
  {
    if ids == [] then Lex(toks, p).tag == T_SEMICOLON
    else
      && Lex(toks, p).tag == T_COMMA
      && Lex(toks, p + 1) == ids[0] && ids[0].tag == T_ID
      && DeclListAt(toks, p + 2, ids[1..])
  }

  /** The identifiers varDeclList declares from token p on, following its
      recovery: `, ID` declares ID and goes on, a `,` without an identifier,
      a `;` or the end of input stop, and any other token is skipped. */
  ghost function DeclaredFrom(toks: seq<Token>, p: int): seq<Token>
    decreases |toks| + 1 - p
  {
    var tag := Lex(toks, p).tag;
    if tag == T_COMMA then
      (if Lex(toks, p + 1).tag == T_ID then [Lex(toks, p + 1)] + DeclaredFrom(toks, p + 2) else [])
    else if tag == T_SEMICOLON || tag == T_EOF then []
    else DeclaredFrom(toks, p + 1)
  }

  /** The state varDeclList leaves behind when it starts at s: `, ID` goes
      on two tokens later, `;` is consumed, a `,` without an identifier is
      consumed and reported, the end of input is reported, and any other
      token is reported and skipped. */
  ghost function DeclListEnd(toks: seq<Token>, s: PState): PState
    decreases Remaining(toks, s)
  {
    var tag := Look(toks, s).tag;
    if tag == T_COMMA then
      (if Lex(toks, s.read).tag == T_ID then DeclListEnd(toks, s.(read := s.read + 2))
       else Report(toks, Next(s), IdAfterComma))
    else if tag == T_SEMICOLON then Next(s)
    else if tag == T_EOF then Report(toks, s, IllegalToken(T_EOF))
    else DeclListEnd(toks, Next(Report(toks, s, IllegalToken(tag))))
  }

  /** varDeclList : T_COMMA T_ID varDeclList | T_SEMICOLON. Appends one
      declared variable per `, ID`; on any other token reports it, skips it
      and retries. Unlike the source, the end of input is reported and not
      skipped, so that the rule terminates. */
  method VarDeclList(toks: seq<Token>, s: PState, decl: Ast) returns (d: Ast, s': PState)
    decreases Remaining(toks, s)
    ensures d.kind == decl.kind && d.attr == decl.attr
    ensures d.children == decl.children + VarDecls(DeclaredFrom(toks, s.read - 1))
    ensures s' == DeclListEnd(toks, s)
  {
    var comma;
    comma, s' := Match(toks, s, T_COMMA);
    if comma {
      if Look(toks, s').tag == T_ID {
        var decl1 := Append(decl, VarDeclNode(Look(toks, s')));
        var s1 := Advance(toks, s');
        ConsumedReal(toks, s, s1);
        assert DeclListEnd(toks, s) == DeclListEnd(toks, s1);
        d, s' := VarDeclList(toks, s1, decl1);
        DeclaredStep(toks, s.read - 1);
      } else {
        s' := SemError(toks, s', IdAfterComma);
        d := decl;
      }
      return;
    }
    var semi;
    semi, s' := Match(toks, s, T_SEMICOLON);
    if semi {
      return decl, s';
    }
    var tag := Look(toks, s).tag;
    s' := SemError(toks, s, IllegalToken(tag));
    if tag == T_EOF {
      return decl, s';
    }
    var s1 := Advance(toks, s');
    ConsumedReal(toks, s, s1);
    assert DeclListEnd(toks, s) == DeclListEnd(toks, s1);
    d, s' := VarDeclList(toks, s1, decl);
  }

  /** After `, id` the declared variables are id's and then the rest's. */
  lemma DeclaredStep(toks: seq<Token>, p: int)
    requires Lex(toks, p).tag == T_COMMA && Lex(toks, p + 1).tag == T_ID
    ensures VarDecls(DeclaredFrom(toks, p)) == [VarDeclNode(Lex(toks, p + 1))] + VarDecls(DeclaredFrom(toks, p + 2))
  {
    assert DeclaredFrom(toks, p) == [Lex(toks, p + 1)] + DeclaredFrom(toks, p + 2);
    VarDeclsCons(Lex(toks, p + 1), DeclaredFrom(toks, p + 2));
  }

  lemma VarDeclsCons(x: Token, rest: seq<Token>)
    ensures VarDecls([x] + rest) == [VarDeclNode(x)] + VarDecls(rest)
  {
    var l, r := VarDecls([x] + rest), [VarDeclNode(x)] + VarDecls(rest);
    forall i | 0 <= i < |l|
      ensures l[i] == r[i]
    {
      if i > 0 {
        assert ([x] + rest)[i] == rest[i - 1];
      }
    }
  }

  /** What varDeclList does to the parse state: the lexer only moves on and
      one error is reported per skipped token, plus one at the end of
      input; `;`, a `,` without an identifier and the end of input end the
      list at once. */
  lemma {:induction false} DeclListEndSpec(toks: seq<Token>, s: PState)
    decreases Remaining(toks, s)
    ensures var e := DeclListEnd(toks, s);
      && Grows(s, e)
      && e.errors - s.errors <= e.read - s.read + (if Look(toks, e).tag == T_EOF then 1 else 0)
      && (Look(toks, s).tag == T_SEMICOLON ==> e == Next(s))
      && (Look(toks, s).tag == T_COMMA && Lex(toks, s.read).tag != T_ID ==> e == Report(toks, Next(s), IdAfterComma))
      && (Look(toks, s).tag == T_EOF ==> e == Report(toks, s, IllegalToken(T_EOF)))
  {
    var tag := Look(toks, s).tag;
    if tag == T_COMMA && Lex(toks, s.read).tag == T_ID {
      var s2 := s.(read := s.read + 2);
      ConsumedReal(toks, s, s2);
      DeclListEndSpec(toks, s2);
    } else if tag != T_COMMA && tag != T_SEMICOLON && tag != T_EOF {
      var s1 := Next(Report(toks, s, IllegalToken(tag)));
      ConsumedReal(toks, s, s1);
      DeclListEndSpec(toks, s1);
    }
  }

  /** A complete list `, id ... ;` declares exactly its identifiers and
      is read without an error. */
  lemma {:induction false} DeclListComplete(toks: seq<Token>, s: PState, ids: seq<Token>)
    requires DeclListAt(toks, s.read - 1, ids)
    decreases |ids|
    ensures DeclaredFrom(toks, s.read - 1) == ids
    ensures var e := DeclListEnd(toks, s);
      e.read == s.read + 2 * |ids| + 1 && e.errors == s.errors && e.log == s.log
  {
    if ids != [] {
      DeclListStep(toks, s.read - 1, ids);
      var s2 := s.(read := s.read + 2);
      DeclListComplete(toks, s2, ids[1..]);
      assert ids == [ids[0]] + ids[1..];
    }
  }

  /** A declaration list starting with `, id` continues with the rest. */
  lemma DeclListStep(toks: seq<Token>, p: int, ids: seq<Token>)
    requires DeclListAt(toks, p, ids) && Lex(toks, p).tag == T_COMMA
    ensures ids != [] && DeclListAt(toks, p + 2, ids[1..])
    ensures VarDecls(ids) == [VarDeclNode(ids[0])] + VarDecls(ids[1..])
  {
  }

  /** localVarDecl : T_INT T_ID varDeclList */
  method LocalVarDecl(toks: seq<Token>, s: PState) returns (node: Option<Ast>, s': PState)
    ensures Look(toks, s).tag != T_INT ==> node.None? && s' == s
    ensures Look(toks, s).tag == T_INT && Lex(toks, s.read).tag != T_ID ==>
      node.None? && s' == Report(toks, Next(s), IdAfterType)
    ensures Look(toks, s).tag == T_INT && Lex(toks, s.read).tag == T_ID ==>
      && node == Some(Ast(OpDeclStmt, NoAttr, [VarDeclNode(Lex(toks, s.read))] + VarDecls(DeclaredFrom(toks, s.read + 1))))
      && s' == DeclListEnd(toks, s.(read := s.read + 2))
    ensures forall ids {:trigger DeclListAt(toks, s.read + 1, ids)} ::
      Look(toks, s).tag == T_INT && Lex(toks, s.read).tag == T_ID && DeclListAt(toks, s.read + 1, ids) ==>
        node == Some(Ast(OpDeclStmt, NoAttr, [VarDeclNode(Lex(toks, s.read))] + VarDecls(ids)))
        && s'.read == s.read + 2 * |ids| + 3 && s'.errors == s.errors && s'.log == s.log
    ensures Grows(s, s')
  {
    if Look(toks, s).tag == T_INT {
      var s1 := Advance(toks, s);
      if Look(toks, s1).tag == T_ID {
        var stmt := Ast(OpDeclStmt, NoAttr, [VarDeclNode(Look(toks, s1))]);
        var s2 := Advance(toks, s1);
        var d;
        d, s' := VarDeclList(toks, s2, stmt);
        DeclListEndSpec(toks, s2);
        forall ids | DeclListAt(toks, s2.read - 1, ids)
          ensures DeclaredFrom(toks, s2.read - 1) == ids
          ensures s'.read == s2.read + 2 * |ids| + 1 && s'.errors == s.errors && s'.log == s.log
        {
          DeclListComplete(toks, s2, ids);
        }
        return Some(d), s';
      } else {
        s' := SemError(toks, s1, IdAfterType);
        return None, s';
      }
    }
    return None, s;
  }

  // ---------------------------------------------------------------------
  // Blocks
  /** One return statement as `statement` reads it: `return`, an optional
      literal, and an optional `;` (a missing one is reported). */
  datatype RetStmt = RetStmt(expr: Option<Token>, semi: bool)

  /** Tokens one return statement occupies. */
  function Width(st: RetStmt): nat {
    1 + (if st.expr.Some? then 1 else 0) + (if st.semi then 1 else 0)
  }

  /** Tokens a run of return statements occupies. */
  function TotalWidth(stmts: seq<RetStmt>): nat {
    if stmts == [] then 0 else TotalWidth(stmts[..|stmts| - 1]) + Width(stmts[|stmts| - 1])
  }

  /** Errors a run of return statements reports: one per missing `;`. */
  function Missing(stmts: seq<RetStmt>): nat {
    if stmts == [] then 0
    else Missing(stmts[..|stmts| - 1]) + (if stmts[|stmts| - 1].semi then 0 else 1)
  }

  function StmtNode(st: RetStmt): Ast {
    ReturnNode(if st.expr.Some? then Some(LiteralNode(st.expr.value)) else None)
  }

  /** The nodes `statement` builds for a run of return statements. */
  function StmtNodes(stmts: seq<RetStmt>): (r: seq<Ast>)
    ensures |r| == |stmts|
  {
    seq(|stmts|, i requires 0 <= i < |stmts| => StmtNode(stmts[i]))
  }

  /** Token p reads the return statement st. */
  ghost predicate RetAt(toks: seq<Token>, p: int, st: RetStmt) {
    && Lex(toks, p).tag == T_RETURN
    && (if st.expr.Some? then Lex(toks, p + 1) == st.expr.value && st.expr.value.tag == T_DIGIT
        else Lex(toks, p + 1).tag != T_DIGIT)
    && (st.semi <==> Lex(toks, p + 1 + (if st.expr.Some? then 1 else 0)).tag == T_SEMICOLON)
  }

  /** Token p onwards reads the return statements stmts, followed by a
      token that does not start a statement. */
  ghost predicate ReturnsAt(toks: seq<Token>, p: int, stmts: seq<RetStmt>)
    decreases |stmts|
  {
    if stmts == [] then Lex(toks, p).tag != T_RETURN
    else RetAt(toks, p, stmts[0]) && ReturnsAt(toks, p + Width(stmts[0]), stmts[1..])
  }

  /** Every position starts a run of return statements: the statements
      are read one after another until a token that is not `return`, so
      the contracts stated for a run cover every input. */
  lemma {:induction false} RunExists(toks: seq<Token>, p: int) returns (stmts: seq<RetStmt>)
    decreases if p < |toks| then |toks| - p else 0
    ensures ReturnsAt(toks, p, stmts)
  {
    if Lex(toks, p).tag != T_RETURN {
      return [];
    }
    var e := if Lex(toks, p + 1).tag == T_DIGIT then Some(Lex(toks, p + 1)) else None;
    var st := RetStmt(e, Lex(toks, p + 1 + (if e.Some? then 1 else 0)).tag == T_SEMICOLON);
    var rest := RunExists(toks, p + Width(st));
    stmts := [st] + rest;
    assert stmts[0] == st && stmts[1..] == rest;
  }

  /** blockItem : statement */
  method BlockItem(toks: seq<Token>, s: PState) returns (node: Option<Ast>, s': PState)
    ensures Look(toks, s).tag != T_RETURN ==> node.None? && s' == s
    ensures Look(toks, s).tag == T_RETURN ==>
      node == Some(ReturnNode(ExprAt(toks, s.read))) && s' == ReturnEnd(toks, s)
    ensures Grows(s, s') && s'.errors <= s.errors + 1
    ensures node.Some? ==> s'.read > s.read
  {
    node, s' := Statement(toks, s);
  }

  /** One loop step of blockItemList reads the first statement of stmts. */
  lemma StepReturnsAt(toks: seq<Token>, s: PState, stmts: seq<RetStmt>)
    requires ReturnsAt(toks, s.read - 1, stmts) && Look(toks, s).tag == T_RETURN
    ensures stmts != []
    ensures ReturnNode(ExprAt(toks, s.read)) == StmtNode(stmts[0])
    ensures ReturnEnd(toks, s).read == s.read + Width(stmts[0])
    ensures ReturnEnd(toks, s).errors == s.errors + (if stmts[0].semi then 0 else 1)
    ensures ReturnsAt(toks, ReturnEnd(toks, s).read - 1, stmts[1..])
  {
  }

  /** blockItemList : blockItem+. Appends the statements to the block
      until the lookahead is `}` or no statement is recognised. */
  method BlockItemList(toks: seq<Token>, s: PState, block: Ast) returns (b: Ast, s': PState)
    ensures b.kind == block.kind && b.attr == block.attr
    ensures |b.children| >= |block.children| && b.children[..|block.children|] == block.children
    ensures forall i :: |block.children| <= i < |b.children| ==> b.children[i].kind == OpReturn
    ensures Look(toks, s').tag != T_RETURN
    ensures Grows(s, s') && s'.errors - s.errors <= |b.children| - |block.children|
    ensures Look(toks, s).tag != T_RETURN ==> b == block && s' == s
    ensures forall stmts {:trigger ReturnsAt(toks, s.read - 1, stmts)} ::
      ReturnsAt(toks, s.read - 1, stmts) ==>
        b.children == block.children + StmtNodes(stmts)
        && s'.read == s.read + TotalWidth(stmts) && s'.errors == s.errors + Missing(stmts)
  {
    b, s' := block, s;
    ghost var items: seq<Ast> := [];
    while true
      invariant b == block.(children := block.children + items)
      invariant forall i :: 0 <= i < |items| ==> items[i].kind == OpReturn
      invariant Grows(s, s') && s'.errors - s.errors <= |items|
      invariant Look(toks, s).tag != T_RETURN ==> items == [] && s' == s
      invariant RunSoFar(toks, s, s', items)
      decreases Remaining(toks, s')
    {
      if Look(toks, s').tag == T_R_BRACE {
        break;
      }
      var item, s1 := BlockItem(toks, s');
      if item.None? {
        break;
      }
      ConsumedReal(toks, s', s1);
      RunStep(toks, s, s', items);
      b := Append(b, item.value);
      items := items + [item.value];
      s' := s1;
    }
    RunEnd(toks, s, s', items);
    assert b.children[..|block.children|] == block.children;
  }

  /** The loop invariant of blockItemList: whatever statements the input
      holds, the loop has read the first |items| of them. */
  ghost predicate RunSoFar(toks: seq<Token>, s: PState, s': PState, items: seq<Ast>) {
    forall stmts {:trigger ReturnsAt(toks, s.read - 1, stmts)} ::
      ReturnsAt(toks, s.read - 1, stmts) ==>
        && |items| <= |stmts|
        && items == StmtNodes(stmts[..|items|])
        && s'.read == s.read + TotalWidth(stmts[..|items|])
        && s'.errors == s.errors + Missing(stmts[..|items|])
        && ReturnsAt(toks, s'.read - 1, stmts[|items|..])
  }

  /** One iteration of blockItemList keeps its invariant. */
  lemma RunStep(toks: seq<Token>, s: PState, sb: PState, items: seq<Ast>)
    requires RunSoFar(toks, s, sb, items) && Look(toks, sb).tag == T_RETURN
    ensures RunSoFar(toks, s, ReturnEnd(toks, sb), items + [ReturnNode(ExprAt(toks, sb.read))])
  {
    var k := |items|;
    forall stmts | ReturnsAt(toks, s.read - 1, stmts)
      ensures k + 1 <= |stmts|
      ensures items + [ReturnNode(ExprAt(toks, sb.read))] == StmtNodes(stmts[..k + 1])
      ensures ReturnEnd(toks, sb).read == s.read + TotalWidth(stmts[..k + 1])
      ensures ReturnEnd(toks, sb).errors == s.errors + Missing(stmts[..k + 1])
      ensures ReturnsAt(toks, ReturnEnd(toks, sb).read - 1, stmts[k + 1..])
    {
      RunStepOne(toks, s, sb, stmts, k);
    }
  }

  /** When blockItemList stops, it has read all the statements. */
  lemma RunEnd(toks: seq<Token>, s: PState, s': PState, items: seq<Ast>)
    requires RunSoFar(toks, s, s', items) && Look(toks, s').tag != T_RETURN
    ensures forall stmts {:trigger ReturnsAt(toks, s.read - 1, stmts)} ::
      ReturnsAt(toks, s.read - 1, stmts) ==>
        items == StmtNodes(stmts)
        && s'.read == s.read + TotalWidth(stmts) && s'.errors == s.errors + Missing(stmts)
  {
    forall stmts | ReturnsAt(toks, s.read - 1, stmts)
      ensures stmts[..|items|] == stmts
    {
      RunEndOne(toks, s', stmts, |items|);
    }
  }

  /** One iteration of blockItemList extends the statements read by one. */
  lemma RunStepOne(toks: seq<Token>, s0: PState, sb: PState, stmts: seq<RetStmt>, k: nat)
    requires k <= |stmts| && ReturnsAt(toks, sb.read - 1, stmts[k..]) && Look(toks, sb).tag == T_RETURN
    requires sb.read == s0.read + TotalWidth(stmts[..k]) && sb.errors == s0.errors + Missing(stmts[..k])
    ensures k + 1 <= |stmts|
    ensures ReturnNode(ExprAt(toks, sb.read)) == StmtNode(stmts[k])
    ensures StmtNodes(stmts[..k + 1]) == StmtNodes(stmts[..k]) + [StmtNode(stmts[k])]
    ensures ReturnEnd(toks, sb).read == s0.read + TotalWidth(stmts[..k + 1])
    ensures ReturnEnd(toks, sb).errors == s0.errors + Missing(stmts[..k + 1])
    ensures ReturnsAt(toks, ReturnEnd(toks, sb).read - 1, stmts[k + 1..])
  {
    StepReturnsAt(toks, sb, stmts[k..]);
    assert stmts[k..][1..] == stmts[k + 1..];
    assert stmts[..k + 1][..k] == stmts[..k];
  }

  /** At the statement where blockItemList stops, no statement is left. */
  lemma RunEndOne(toks: seq<Token>, s: PState, stmts: seq<RetStmt>, k: nat)
    requires k <= |stmts| && ReturnsAt(toks, s.read - 1, stmts[k..]) && Look(toks, s).tag != T_RETURN
    ensures stmts[..k] == stmts
  {
  }

  /** The block node holding the statements stmts. */
  function BlockOf(stmts: seq<RetStmt>): Ast {
    Ast(OpBlock, NoAttr, StmtNodes(stmts))
  }

  /** block : T_L_BRACE blockItemList? T_R_BRACE. `mid` is the state after
      the statements, where the closing brace is expected. */
  method Block(toks: seq<Token>, s: PState) returns (node: Option<Ast>, s': PState, ghost mid: PState)
    ensures Look(toks, s).tag != T_L_BRACE ==> node.None? && s' == s
    ensures Look(toks, s).tag == T_L_BRACE ==>
      && node.Some? && node.value.kind == OpBlock && node.value.attr == NoAttr
      && (forall i :: 0 <= i < |node.value.children| ==> node.value.children[i].kind == OpReturn)
      && Grows(Next(s), mid) && Look(toks, mid).tag != T_RETURN
      && mid.errors - s.errors <= |node.value.children|
      && s' == (if Look(toks, mid).tag == T_R_BRACE then Next(mid) else Report(toks, mid, MissingRBrace))
    ensures Look(toks, s).tag == T_L_BRACE && Lex(toks, s.read).tag == T_R_BRACE ==>
      node == Some(EmptyBlock()) && s' == Next(Next(s))
    ensures forall stmts {:trigger ReturnsAt(toks, s.read, stmts)} ::
      (Look(toks, s).tag == T_L_BRACE && ReturnsAt(toks, s.read, stmts)) ==>
        && node == Some(BlockOf(stmts))
        && mid.read == s.read + 1 + TotalWidth(stmts) && mid.errors == s.errors + Missing(stmts)
    ensures Grows(s, s')
  {
    mid := s;
    var open;
    open, s' := Match(toks, s, T_L_BRACE);
    if open {
      var blockNode := EmptyBlock();
      var close, inner := false, s';
      mid := inner;
      close, s' := Match(toks, inner, T_R_BRACE);
      if close {
        forall stmts | ReturnsAt(toks, s.read, stmts)
          ensures stmts == []
        {
        }
        return Some(blockNode), s', mid;
      }
      blockNode, inner := BlockItemList(toks, inner, blockNode);
      mid := inner;
      close, s' := Match(toks, inner, T_R_BRACE);
      if !close {
        s' := SemError(toks, s', MissingRBrace);
      }
      return Some(blockNode), s', mid;
    }
    return None, s, mid;
  }

  // ---------------------------------------------------------------------
  // Function definitions and the compile unit

  /** funcDef : T_INT T_ID T_L_PAREN T_R_PAREN block. `mid` is the state
      where the body's closing brace is expected. */
  method FuncDef(toks: seq<Token>, s: PState) returns (node: Option<Ast>, s': PState, ghost mid: PState)
    ensures Look(toks, s).tag != T_INT ==> node.None? && s' == s
    ensures Look(toks, s).tag == T_INT && Lex(toks, s.read).tag != T_ID ==>
      node.None? && s' == Next(s)
    ensures (Look(toks, s).tag == T_INT && Lex(toks, s.read).tag == T_ID
             && Lex(toks, s.read + 1).tag != T_L_PAREN) ==>
      node.None? && s' == Report(toks, Next(Next(s)), MissingLParen)
    ensures (Look(toks, s).tag == T_INT && Lex(toks, s.read).tag == T_ID
             && Lex(toks, s.read + 1).tag == T_L_PAREN && Lex(toks, s.read + 2).tag != T_R_PAREN) ==>
      node.None? && s' == Report(toks, Next(Next(Next(s))), MissingRParen)
    ensures (Look(toks, s).tag == T_INT && Lex(toks, s.read).tag == T_ID
             && Lex(toks, s.read + 1).tag == T_L_PAREN && Lex(toks, s.read + 2).tag == T_R_PAREN) ==>
      && node.Some? && node.value.kind == OpFuncDef
      && node.value.attr == Name(Lex(toks, s.read).id, Lex(toks, s.read).line)
      && |node.value.children| <= 1
      && (node.value.children == [] <==> Lex(toks, s.read + 3).tag != T_L_BRACE)
      && (node.value.children != [] ==> node.value.children[0].kind == OpBlock)
      && (Lex(toks, s.read + 3).tag != T_L_BRACE ==> s'.read == s.read + 4 && s'.errors == s.errors)
    ensures forall stmts {:trigger FuncAt(toks, s.read - 1, stmts)} ::
      FuncAt(toks, s.read - 1, stmts) ==>
        && node == Some(FuncDefNode(Lex(toks, s.read), Some(BlockOf(stmts))))
        && mid.read == s.read + 5 + TotalWidth(stmts) && mid.errors == s.errors + Missing(stmts)
        && s' == (if Look(toks, mid).tag == T_R_BRACE then Next(mid) else Report(toks, mid, MissingRBrace))
    ensures Grows(s, s')
  {
    mid := s;
    if Look(toks, s).tag == T_INT {
      var s1 := Advance(toks, s);
      if Look(toks, s1).tag == T_ID {
        var id := Look(toks, s1);
        var s2 := Advance(toks, s1);
        var lp;
        lp, s' := Match(toks, s2, T_L_PAREN);
        if lp {
          var rp;
          rp, s' := Match(toks, s', T_R_PAREN);
          if rp {
            var body;
            body, s', mid := Block(toks, s');
            return Some(FuncDefNode(id, body)), s', mid;
          } else {
            s' := SemError(toks, s', MissingRParen);
          }
        } else {
          s' := SemError(toks, s', MissingLParen);
        }
        return None, s', mid;
      }
      return None, s1, mid;
    }
    return None, s, mid;
  }

  /** Token p onwards reads `int id ( ) { stmts`. */
  ghost predicate FuncAt(toks: seq<Token>, p: int, stmts: seq<RetStmt>) {
    && Lex(toks, p).tag == T_INT && Lex(toks, p + 1).tag == T_ID
    && Lex(toks, p + 2).tag == T_L_PAREN && Lex(toks, p + 3).tag == T_R_PAREN
    && Lex(toks, p + 4).tag == T_L_BRACE
    && ReturnsAt(toks, p + 5, stmts)
  }

  /** The tree of a one-function program whose body holds stmts. */
  function ProgramTree(id: Token, stmts: seq<RetStmt>): Ast {
    Ast(OpCompileUnit, NoAttr, [FuncDefNode(id, Some(BlockOf(stmts)))])
  }

  /** Token p onwards reads `int id ( ) { stmts } EOF`. */
  ghost predicate ProgramAt(toks: seq<Token>, p: int, stmts: seq<RetStmt>) {
    && FuncAt(toks, p, stmts)
    && Lex(toks, p + 5 + TotalWidth(stmts)).tag == T_R_BRACE
    && Lex(toks, p + 6 + TotalWidth(stmts)).tag == T_EOF
  }

  /** The function-definition part of compileUnit: a root node holding the
      function when the lookahead is `int`. */
  method UnitFuncDef(toks: seq<Token>, s: PState) returns (node: Ast, after: PState)
    ensures node.kind == OpCompileUnit && node.attr == NoAttr && |node.children| <= 1
    ensures node.children != [] ==> Look(toks, s).tag == T_INT && node.children[0].kind == OpFuncDef
    ensures Look(toks, s).tag != T_INT ==> node.children == [] && after == s
    ensures Grows(s, after)
    ensures forall stmts {:trigger ProgramAt(toks, s.read - 1, stmts)} ::
      ProgramAt(toks, s.read - 1, stmts) ==>
        && node == ProgramTree(Lex(toks, s.read), stmts)
        && after.read == s.read + TotalWidth(stmts) + 6 && after.errors == s.errors + Missing(stmts)
        && Look(toks, after).tag == T_EOF
  {
    node := Ast(OpCompileUnit, NoAttr, []);
    after := s;
    if Look(toks, s).tag == T_INT {
      var f;
      ghost var inner;
      f, after, inner := FuncDef(toks, s);
      if f.Some? {
        node := Ast(OpCompileUnit, NoAttr, [f.value]);
      }
      forall stmts | ProgramAt(toks, s.read - 1, stmts)
        ensures node == ProgramTree(Lex(toks, s.read), stmts)
        ensures after.read == s.read + TotalWidth(stmts) + 6 && after.errors == s.errors + Missing(stmts)
        ensures Look(toks, after).tag == T_EOF
      {
        assert FuncAt(toks, s.read - 1, stmts);
        ClosedProgram(toks, s, stmts, f, inner, after);
      }
    }
  }

  /** compileUnit : funcDef EOF. `mid` is the state where the end of input
      is expected. */
  method CompileUnit(toks: seq<Token>, s: PState) returns (node: Ast, s': PState, ghost mid: PState)
    ensures node.kind == OpCompileUnit && node.attr == NoAttr && |node.children| <= 1
    ensures node.children != [] ==> Look(toks, s).tag == T_INT && node.children[0].kind == OpFuncDef
    ensures Look(toks, s).tag != T_INT ==> node.children == [] && mid == s
    ensures Grows(s, mid)
    ensures s' == if Look(toks, mid).tag == T_EOF then Next(mid) else Report(toks, mid, EofMismatch)
    ensures forall stmts {:trigger ProgramAt(toks, s.read - 1, stmts)} ::
      ProgramAt(toks, s.read - 1, stmts) ==>
        && node == ProgramTree(Lex(toks, s.read), stmts)
        && s'.read == s.read + TotalWidth(stmts) + 7 && s'.errors == s.errors + Missing(stmts)
    ensures Grows(s, s')
  {
    var after;
    node, after := UnitFuncDef(toks, s);
    mid := after;
    var eof;
    eof, s' := Match(toks, after, T_EOF);
    if !eof {
      s' := SemError(toks, s', EofMismatch);
    }
  }

  /** The tokens of a one-function program, seen from the lookahead `int`. */
  lemma ProgramShape(toks: seq<Token>, s: PState, stmts: seq<RetStmt>)
    requires ProgramAt(toks, s.read - 1, stmts)
    ensures Look(toks, s).tag == T_INT && Lex(toks, s.read).tag == T_ID
    ensures Lex(toks, s.read + 1).tag == T_L_PAREN && Lex(toks, s.read + 2).tag == T_R_PAREN
    ensures Lex(toks, s.read + 3).tag == T_L_BRACE && ReturnsAt(toks, s.read + 4, stmts)
    ensures Lex(toks, s.read + 4 + TotalWidth(stmts)).tag == T_R_BRACE
    ensures Lex(toks, s.read + 5 + TotalWidth(stmts)).tag == T_EOF
  {
  }

  /** What funcDef leaves behind on a one-function program: the function
      node, and the lookahead on the end of input after the closing brace. */
  lemma ClosedProgram(toks: seq<Token>, s: PState, stmts: seq<RetStmt>, f: Option<Ast>, inner: PState, after: PState)
    requires ProgramAt(toks, s.read - 1, stmts)
    requires f == Some(FuncDefNode(Lex(toks, s.read), Some(BlockOf(stmts))))
    requires inner.read == s.read + 5 + TotalWidth(stmts) && inner.errors == s.errors + Missing(stmts)
    requires after == (if Look(toks, inner).tag == T_R_BRACE then Next(inner) else Report(toks, inner, MissingRBrace))
    ensures Ast(OpCompileUnit, NoAttr, [f.value]) == ProgramTree(Lex(toks, s.read), stmts)
    ensures after.read == s.read + TotalWidth(stmts) + 6 && after.errors == s.errors + Missing(stmts)
    ensures Look(toks, after).tag == T_EOF
  {
    ProgramShape(toks, s, stmts);
  }

  /** rd_parse: resets the error counter, reads the first token and parses
      a compile unit; the tree is returned only when no error was counted.
      `prior` is the lexer position and the diagnostics printed before. */
  method RdParse(toks: seq<Token>, prior: PState) returns (r: Option<Ast>, s': PState)
    ensures r.None? <==> s'.errors != 0
    ensures prior.log <= s'.log && s'.errors == |s'.log| - |prior.log|
    ensures s'.read > prior.read
    ensures r.Some? ==> r.value.kind == OpCompileUnit && |r.value.children| <= 1
    ensures r.Some? && r.value.children != [] ==> r.value.children[0].kind == OpFuncDef
    ensures forall stmts {:trigger ProgramAt(toks, prior.read, stmts)} ::
      ProgramAt(toks, prior.read, stmts) ==>
        && s'.errors == Missing(stmts)
        && r == (if Missing(stmts) == 0 then Some(ProgramTree(Lex(toks, prior.read + 1), stmts)) else None)
        && s'.read == prior.read + TotalWidth(stmts) + 8
  {
    var s := prior.(errors := 0);
    s := Advance(toks, s);
    var root;
    ghost var mid;
    root, s', mid := CompileUnit(toks, s);
    forall stmts | ProgramAt(toks, prior.read, stmts)
      ensures root == ProgramTree(Lex(toks, prior.read + 1), stmts)
      ensures s'.read == prior.read + TotalWidth(stmts) + 8 && s'.errors == Missing(stmts)
    {
      assert s.read - 1 == prior.read;
      assert ProgramAt(toks, s.read - 1, stmts);
    }
    if s'.errors != 0 {
      return None, s';
    }
    return Some(root), s';
  }
}
