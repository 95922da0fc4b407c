/** Properties of the recursive-descent parser on whole inputs: printing a
    one-function program and parsing it back gives its tree, concrete
    programs, and the end-of-input behaviour of the declaration list. */
module ParserProperties {
  import opened Wrappers
  import opened MiniCAst
  import opened RecursiveDescent

  /** A token without attributes on line 1. */
  function Tok(tag: Tag): Token {
    Token(tag, 0, "", 1)
  }

  /** The tokens of one return statement. */
  function RenderRet(st: RetStmt): seq<Token> {
    [Tok(T_RETURN)]
      + (if st.expr.Some? then [st.expr.value] else [])
      + (if st.semi then [Tok(T_SEMICOLON)] else [])
  }

  /** The tokens of a run of return statements. */
  function RenderRets(stmts: seq<RetStmt>): seq<Token>
    decreases |stmts|
  {
    if stmts == [] then [] else RenderRet(stmts[0]) + RenderRets(stmts[1..])
  }

  /** The tokens of `int name ( ) { stmts }`. */
  function RenderProgram(name: Token, stmts: seq<RetStmt>): seq<Token> {
    [Tok(T_INT), name, Tok(T_L_PAREN), Tok(T_R_PAREN), Tok(T_L_BRACE)] + RenderRets(stmts) + [Tok(T_R_BRACE)]
  }

  /** Programs that can be printed: an identifier as the name and integer
      literals as returned values. */
  predicate Printable(name: Token, stmts: seq<RetStmt>) {
    && name.tag == T_ID
    && forall i :: 0 <= i < |stmts| ==> (stmts[i].expr.Some? ==> stmts[i].expr.value.tag == T_DIGIT)
  }

  /** TotalWidth unfolds from the front as well as from the back. */
  lemma {:induction false} TotalWidthFront(stmts: seq<RetStmt>)
    requires stmts != []
    ensures TotalWidth(stmts) == Width(stmts[0]) + TotalWidth(stmts[1..])
    decreases |stmts|
  {
    var n := |stmts|;
    if n > 1 {
      TotalWidthFront(stmts[..n - 1]);
      assert stmts[..n - 1][1..] == stmts[1..][..n - 2];
      assert stmts[..n - 1][0] == stmts[0];
      assert stmts[1..][n - 2] == stmts[n - 1];
    }
  }

  /** Missing unfolds from the front as well as from the back. */
  lemma {:induction false} MissingFront(stmts: seq<RetStmt>)
    requires stmts != []
    ensures Missing(stmts) == (if stmts[0].semi then 0 else 1) + Missing(stmts[1..])
    decreases |stmts|
  {
    var n := |stmts|;
    if n > 1 {
      MissingFront(stmts[..n - 1]);
      assert stmts[..n - 1][1..] == stmts[1..][..n - 2];
      assert stmts[..n - 1][0] == stmts[0];
      assert stmts[1..][n - 2] == stmts[n - 1];
    }
  }

  /** The parse counts no error exactly when every return statement ends
      with a semicolon. */
  lemma {:induction false} MissingZeroIff(stmts: seq<RetStmt>)
    ensures Missing(stmts) == 0 <==> forall i :: 0 <= i < |stmts| ==> stmts[i].semi
    decreases |stmts|
  {
    if stmts != [] {
      var n := |stmts|;
      MissingZeroIff(stmts[..n - 1]);
      assert forall i :: 0 <= i < n - 1 ==> stmts[..n - 1][i] == stmts[i];
    }
  }

  /** The first token after a printed run of statements, when the run is
      followed by `}`: `return` or `}`, never `;` nor a literal. */
  lemma FirstAfterRun(stmts: seq<RetStmt>, post: seq<Token>)
    requires |post| > 0 && post[0].tag == T_R_BRACE
    ensures (RenderRets(stmts) + post)[0].tag in {T_RETURN, T_R_BRACE}
  {
    if stmts != [] {
      assert RenderRets(stmts)[0] == Tok(T_RETURN);
    }
  }

  /** A printed return statement followed by `return` or `}` reads back
      as that statement. */
  lemma PrintedRet(pre: seq<Token>, st: RetStmt, post: seq<Token>)
    requires st.expr.Some? ==> st.expr.value.tag == T_DIGIT
    requires |post| > 0 && post[0].tag in {T_RETURN, T_R_BRACE}
    ensures |RenderRet(st)| == Width(st)
    ensures RetAt(pre + RenderRet(st) + post, |pre|, st)
  {
    var r0 := RenderRet(st);
    var toks := pre + r0 + post;
    var e := if st.expr.Some? then 1 else 0;
    assert Lex(toks, |pre|) == r0[0];
    assert Lex(toks, |pre| + |r0|) == post[0];
    if st.expr.Some? {
      assert Lex(toks, |pre| + 1) == r0[1];
    }
    if st.semi {
      assert Lex(toks, |pre| + 1 + e) == r0[1 + e];
    }
  }

  /** A printed run of return statements followed by `}` reads back as
      exactly those statements. */
  lemma {:induction false} PrintedReturns(pre: seq<Token>, stmts: seq<RetStmt>, post: seq<Token>)
    requires forall i :: 0 <= i < |stmts| ==> (stmts[i].expr.Some? ==> stmts[i].expr.value.tag == T_DIGIT)
    requires |post| > 0 && post[0].tag == T_R_BRACE
    ensures |RenderRets(stmts)| == TotalWidth(stmts)
    ensures ReturnsAt(pre + RenderRets(stmts) + post, |pre|, stmts)
    decreases |stmts|
  {
    var toks := pre + RenderRets(stmts) + post;
    if stmts == [] {
      assert Lex(toks, |pre|) == post[0];
    } else {
      var st := stmts[0];
      var r0 := RenderRet(st);
      var rest := stmts[1..];
      var pre' := pre + r0;
      var post' := RenderRets(rest) + post;
      SplitRun(pre, stmts, post);
      PrintedReturns(pre', rest, post);
      TotalWidthFront(stmts);
      FirstAfterRun(rest, post);
      PrintedRet(pre, st, post');
    }
  }

  /** The printed run splits after its first statement. */
  lemma SplitRun(pre: seq<Token>, stmts: seq<RetStmt>, post: seq<Token>)
    requires stmts != []
    ensures pre + RenderRets(stmts) + post == (pre + RenderRet(stmts[0])) + RenderRets(stmts[1..]) + post
    ensures pre + RenderRets(stmts) + post == pre + RenderRet(stmts[0]) + (RenderRets(stmts[1..]) + post)
  {
    var a, b := RenderRet(stmts[0]), RenderRets(stmts[1..]);
    assert RenderRets(stmts) == a + b;
    SeqRegroup(pre, a, b, post);
  }

  lemma SeqRegroup(pre: seq<Token>, a: seq<Token>, b: seq<Token>, post: seq<Token>)
    ensures pre + (a + b) + post == (pre + a) + b + post
    ensures pre + (a + b) + post == pre + a + (b + post)
  {
  }

  /** A printed program is a well-formed one-function input. */
  lemma PrintedIsProgram(name: Token, stmts: seq<RetStmt>)
    requires Printable(name, stmts)
    ensures ProgramAt(RenderProgram(name, stmts), 0, stmts)
    ensures Lex(RenderProgram(name, stmts), 1) == name
  {
    var head := [Tok(T_INT), name, Tok(T_L_PAREN), Tok(T_R_PAREN), Tok(T_L_BRACE)];
    PrintedReturns(head, stmts, [Tok(T_R_BRACE)]);
    ProgramTokens(name, stmts);
    var toks := RenderProgram(name, stmts);
    assert FuncAt(toks, 0, stmts);
  }

  /** Where the fixed tokens of a printed program sit. */
  lemma ProgramTokens(name: Token, stmts: seq<RetStmt>)
    ensures var toks := RenderProgram(name, stmts);
      var n := |RenderRets(stmts)|;
      && |toks| == n + 6
      && toks[0] == Tok(T_INT) && toks[1] == name && toks[2] == Tok(T_L_PAREN)
      && toks[3] == Tok(T_R_PAREN) && toks[4] == Tok(T_L_BRACE)
      && toks[5 + n] == Tok(T_R_BRACE)
  {
  }

  /** Parsing a printed program gives back its tree when every return
      statement has its semicolon, and otherwise no tree and one
      diagnostic per missing semicolon. */
  method ParsePrinted(name: Token, stmts: seq<RetStmt>) returns (r: Option<Ast>, s': PState)
    requires Printable(name, stmts)
    ensures r.Some? <==> forall i :: 0 <= i < |stmts| ==> stmts[i].semi
    ensures r.Some? ==> r.value == ProgramTree(name, stmts)
    ensures s'.errors == Missing(stmts) && |s'.log| == Missing(stmts)
  {
    PrintedIsProgram(name, stmts);
    MissingZeroIff(stmts);
    r, s' := RdParse(RenderProgram(name, stmts), PState(0, 0, []));
  }

  // ---------------------------------------------------------------------
  // Concrete inputs

  /** `int main() { return 1; }` parses without error into the tree
      compile-unit / function main / block / return / literal 1. */
  method ParseReturnOne() returns (r: Option<Ast>, s': PState)
    ensures s'.errors == 0 && s'.log == []
    ensures r == Some(
      Ast(OpCompileUnit, NoAttr, [
        Ast(OpFuncDef, Name("main", 1), [
          Ast(OpBlock, NoAttr, [
            Ast(OpReturn, NoAttr, [Ast(OpLiteral, IntLit(1, 1), [])])])])]))
  {
    var name := Token(T_ID, 0, "main", 1);
    var one := Token(T_DIGIT, 1, "", 1);
    var stmts := [RetStmt(Some(one), true)];
    assert Missing(stmts) == 0;
    r, s' := ParsePrinted(name, stmts);
    assert StmtNodes(stmts) == [StmtNode(stmts[0])];
  }

  /** `int main() { return 1 }` is rejected with exactly one diagnostic. */
  method ParseMissingSemicolon() returns (r: Option<Ast>, s': PState)
    ensures r.None? && s'.errors == 1 && |s'.log| == 1
  {
    var name := Token(T_ID, 0, "main", 1);
    var one := Token(T_DIGIT, 1, "", 1);
    var stmts := [RetStmt(Some(one), false)];
    assert Missing(stmts) == 1;
    r, s' := ParsePrinted(name, stmts);
    assert !stmts[0].semi;
  }

  /** `int a, b, c;` declares a, b and c, in order, without error. */
  method DeclareThree() returns (node: Option<Ast>, s': PState)
    ensures node == Some(Ast(OpDeclStmt, NoAttr, [
      Ast(OpVarDecl, Name("a", 1), []), Ast(OpVarDecl, Name("b", 1), []), Ast(OpVarDecl, Name("c", 1), [])]))
    ensures s' == PState(8, 0, [])
  {
    var a := Token(T_ID, 0, "a", 1);
    var b := Token(T_ID, 0, "b", 1);
    var c := Token(T_ID, 0, "c", 1);
    var toks := [Tok(T_INT), a, Tok(T_COMMA), b, Tok(T_COMMA), c, Tok(T_SEMICOLON)];
    assert DeclListAt(toks, 6, []);
    assert DeclListAt(toks, 4, [c]);
    assert DeclListAt(toks, 2, [b, c]);
    var s0 := PState(1, 0, []);
    node, s' := LocalVarDecl(toks, s0);
    assert Look(toks, s0).tag == T_INT && Lex(toks, s0.read) == a;
    assert DeclListAt(toks, s0.read + 1, [b, c]);
    assert node == Some(Ast(OpDeclStmt, NoAttr, [VarDeclNode(a)] + VarDecls([b, c])));
    assert VarDecls([b, c]) == [VarDeclNode(b), VarDeclNode(c)];
    assert [VarDeclNode(a)] + VarDecls([b, c]) == [VarDeclNode(a), VarDeclNode(b), VarDeclNode(c)];
  }

  // ---------------------------------------------------------------------
  // varDeclList at the end of input, as written

  /** varDeclList as the source writes it, run for at most fuel calls; None
      when the fuel runs out. On a token other than `,` and `;` it reports
      the token, reads the next one and calls itself again, also when the
      token is the end of input. */
  function VarDeclListAsWritten(toks: seq<Token>, s: PState, decl: Ast, fuel: nat): (r: Option<(Ast, PState)>)
    decreases fuel
    ensures r.Some? ==> r.value.0.kind == decl.kind && r.value.0.attr == decl.attr && s.read < r.value.1.read
  {
    if fuel == 0 then None
    else if Look(toks, s).tag == T_COMMA then
      var s1 := Next(s);
      if Look(toks, s1).tag == T_ID then
        VarDeclListAsWritten(toks, Next(s1), Append(decl, VarDeclNode(Look(toks, s1))), fuel - 1)
      else Some((decl, Report(toks, s1, IdAfterComma)))
    else if Look(toks, s).tag == T_SEMICOLON then Some((decl, Next(s)))
    else VarDeclListAsWritten(toks, Next(Report(toks, s, IllegalToken(Look(toks, s).tag))), decl, fuel - 1)
  }

  /** Once the lexer is at the end of input, the written rule never
      returns: no amount of fuel is enough. */
  lemma {:induction false} AsWrittenNeverEndsAtEof(toks: seq<Token>, s: PState, decl: Ast, fuel: nat)
    requires s.read >= |toks| && Look(toks, s).tag == T_EOF
    ensures VarDeclListAsWritten(toks, s, decl, fuel).None?
    decreases fuel
  {
    if fuel > 0 {
      var s1 := Next(Report(toks, s, IllegalToken(T_EOF)));
      AsWrittenNeverEndsAtEof(toks, s1, decl, fuel - 1);
    }
  }

  /** On a complete list `, id ... ;` the written rule and the modelled
      one agree. */
  lemma {:induction false} AsWrittenOnDeclList(toks: seq<Token>, s: PState, decl: Ast, ids: seq<Token>)
    requires DeclListAt(toks, s.read - 1, ids)
    ensures VarDeclListAsWritten(toks, s, decl, |ids| + 1)
      == Some((decl.(children := decl.children + VarDecls(ids)), s.(read := s.read + 2 * |ids| + 1)))
    decreases |ids|
  {
    if ids != [] {
      DeclListStep(toks, s.read - 1, ids);
      var s2 := s.(read := s.read + 2);
      AsWrittenOnDeclList(toks, s2, Append(decl, VarDeclNode(ids[0])), ids[1..]);
      assert decl.children + [VarDeclNode(ids[0])] + VarDecls(ids[1..]) == decl.children + VarDecls(ids);
    } else {
      assert decl.children + VarDecls(ids) == decl.children;
    }
  }

  /** Whenever the written rule returns, it returns what the modelled rule
      does, provided the lexer signals the end only after the last token:
      the two differ only in looping at the end of input. */
  lemma {:induction false} AsWrittenAgrees(toks: seq<Token>, s: PState, decl: Ast, fuel: nat)
    requires forall k :: 0 <= k < |toks| ==> toks[k].tag != T_EOF
    decreases fuel
    ensures VarDeclListAsWritten(toks, s, decl, fuel).Some? ==>
      VarDeclListAsWritten(toks, s, decl, fuel)
        == Some((decl.(children := decl.children + VarDecls(DeclaredFrom(toks, s.read - 1))), DeclListEnd(toks, s)))
  {
    if fuel > 0 {
      var tag := Look(toks, s).tag;
      if tag == T_COMMA && Lex(toks, s.read).tag == T_ID {
        var s2 := s.(read := s.read + 2);
        var n := VarDeclNode(Lex(toks, s.read));
        AsWrittenAgrees(toks, s2, Append(decl, n), fuel - 1);
        DeclaredStep(toks, s.read - 1);
        assert DeclListEnd(toks, s) == DeclListEnd(toks, s2);
        assert (decl.children + [n]) + VarDecls(DeclaredFrom(toks, s2.read - 1))
          == decl.children + ([n] + VarDecls(DeclaredFrom(toks, s2.read - 1)));
      } else if tag == T_COMMA || tag == T_SEMICOLON {
        assert decl.children + VarDecls([]) == decl.children;
      } else if tag == T_EOF {
        AsWrittenNeverEndsAtEof(toks, s, decl, fuel);
      } else {
        var s1 := Next(Report(toks, s, IllegalToken(tag)));
        AsWrittenAgrees(toks, s1, decl, fuel - 1);
        assert DeclListEnd(toks, s) == DeclListEnd(toks, s1);
        assert DeclaredFrom(toks, s.read - 1) == DeclaredFrom(toks, s1.read - 1);
      }
    }
  }

  /** `int a` with nothing after it: the written rule spins on the end of
      input forever, while the modelled rule reports the end of input once
      and stops. */
  method UnfinishedDeclaration(fuel: nat) returns (d: Ast, s': PState)
    ensures VarDeclListAsWritten([Tok(T_INT), Token(T_ID, 0, "a", 1)], PState(3, 0, []),
                                 Ast(OpDeclStmt, NoAttr, [Ast(OpVarDecl, Name("a", 1), [])]), fuel).None?
    ensures d == Ast(OpDeclStmt, NoAttr, [Ast(OpVarDecl, Name("a", 1), [])])
    ensures s' == PState(3, 1, [Diagnostic(1, IllegalToken(T_EOF))])
  {
    var a := Token(T_ID, 0, "a", 1);
    var toks := [Tok(T_INT), a];
    var decl := Ast(OpDeclStmt, NoAttr, [VarDeclNode(a)]);
    AsWrittenNeverEndsAtEof(toks, PState(3, 0, []), decl, fuel);
    d, s' := VarDeclList(toks, PState(3, 0, []), decl);
  }
}
