# A model of the chibicc compiler core: lexer, parser and code generator

This project models the three stages of an early chibicc snapshot. Each
stage becomes pure Dafny functions, and the project proves what the C code
promises about them.

- **Lexer** (`tokenize.c`). A string becomes a sequence of tokens. Each token
  carries its kind, its start offset, its length and, for a number, its
  value. The sequence is closed by one empty end token.
- **Parser** (`parse.c`). This is a recursive-descent parser over an index
  into the token sequence. The table of local variables (most recent first)
  is threaded through every rule instead of living in a global. Each rule
  returns the node, the index after it and the new table, or an error at a
  token's offset.
- **Code generator** (`codegen.c`). It emits a sequence of instructions, and
  the `depth` counter of `push`/`pop` is kept as a value. A small stack
  machine (`rax`, `rdi`, a value stack, slot memory) runs the emitted code.
  A reference evaluator says what an expression means.

The main results are the following.

- Tokens tile the input. The keyword pass only reclassifies `return`.
- Tokenizing fails exactly at the first character no token can start.
- The parser reads back any tree printed by an independent printer. The
  printer inserts only the parentheses precedence needs, and uses no unary
  sign and no `>` or `>=`. So associativity and precedence hold for every
  expression tree, in its printed form; unary signs, `>` and `>=` are
  covered by separate lemmas.
- The table of locals stays duplicate-free and covers every variable used.
- The generated code keeps `depth` balanced.
- Running the generated code computes the value the reference evaluator
  gives, and every variable's slot holds the variable's value.

Modules, by source file:

- `tokenize.c`:
  - `Chars` (character classes, decimal numerals);
  - `Lexer` (`equal`, `skip`, the scanning loop, the keyword pass);
  - `LexerProps` (tiling and error position).
- `parse.c`:
  - `Ast`;
  - `Parser` (the rules and the table);
  - `ParserSteps` (one-step equations of each rule);
  - `Unparse` (the printer and the lexeme facts);
  - `RoundTrip` (the parser reads back what is printed);
  - `ParserTable` (table invariants);
  - `ParserProps` (associativity, precedence, desugarings, error cases).
- `codegen.c`:
  - `CodeGen` (the emitter);
  - `CodeGenProps` (failure cases, depth balance, layout, frame bounds);
  - `Machine` (the stack machine and the correctness theorem).

`parse` returns as soon as `compound_stmt` does and does not check that the
end token follows the block (`parse.c:308-317`); `Parser.Parse` does the
same.  That a successful parse stops at the `}` matching the first `{` is
proved for printed programs only (`RoundTrip.ReadProgram`).

## Model

| member | source | states |
|---|---|---|
| Chars.DecimalRoundTrip | tokenize.c:121-127 | The value the scanner gives a digit run inverts printing: the decimal numeral of any natural number reads back as that number. |
| Chars.CInt | tokenize.c:124 | A literal's stored value is a 32-bit signed int. It equals the literal below 2^31. Up to ULONG_MAX it is the literal modulo 2^32; above, `strtoul` saturates and the value is -1. |
| Chars.IdentClasses | tokenize.c:84-95 | A character that starts an identifier also continues one and is neither a digit nor a blank. `_` is the only punctuation character that starts an identifier. The characters that continue but cannot start an identifier are exactly the digits. |
| Lexer.Skip | tokenize.c:57-63 | `skip` moves to the next token exactly when the token is spelled `s`, and that next token exists. Otherwise it fails at the token's offset with "expected 's'". |
| Lexer.EqualIsText | tokenize.c:50-54 | `equal` holds exactly when the token lies inside the input and its text is `s`: same length and same characters. |
| Lexer.TwoCharOpIsStartsWith | tokenize.c:77-81 | The two-character operator test holds exactly when the input at that offset starts with `==`, `!=`, `<=` or `>=`. |
| Lexer.NextToken | tokenize.c:121-152 | At a non-space character, no token can start exactly when the character is invalid. Otherwise the token starts there, is non-empty, lies inside the input and holds no invalid character. |
| Lexer.Scan | tokenize.c:113-155 | The scanning loop's tokens are non-empty, lie at or after the start offset and do not overlap. They come in increasing order and end with one empty end token at the end of the input. |
| Lexer.ScanIsLexed | tokenize.c:113-155 | Every token of the scanning loop except the end token is one of these: a maximal digit run carrying its decimal value; a maximal `[A-Za-z_][A-Za-z0-9_]*` run; a two-character operator; or a one-character punctuation mark that does not start a two-character operator. |
| Lexer.ConvertKeywords | tokenize.c:97-103 | The keyword pass keeps the length of the sequence. It applies the keyword test to every token before the end token and leaves the rest untouched. |
| Lexer.Keyword | tokenize.c:97-103 | The keyword test changes no token's span or value and never produces an end token. |
| Lexer.KeywordPassKeepsSpans | tokenize.c:97-103 | The keyword pass keeps every token's offset and length, so the sequence's order and tiling survive it. |
| Lexer.KeywordClassifies | tokenize.c:97-103 | After the keyword test, a token spelled `return` is reserved and was lexed as an identifier run. Any other token is as the scanning loop made it. |
| Lexer.Tokenize | tokenize.c:106-158 | A successful result ends with one empty end token at the end of the input. The other tokens are non-empty and strictly ordered. |
| Lexer.TokenizeClassifies | tokenize.c:106-158 | Every token `tokenize` returns, except the end token, is a maximal number run with its value, an identifier run, an operator, or `return` made reserved. |
| LexerProps.ScanOkIffValid | tokenize.c:113-152 | The scanning loop from an offset succeeds exactly when no invalid character follows that offset. |
| LexerProps.ScanFailsAtFirstInvalid | tokenize.c:152 | A failing scan reports "invalid token" at an offset holding an invalid character, with no invalid character before it. |
| LexerProps.TokenizeFailsAtFirstInvalid | tokenize.c:106-158 | `tokenize` succeeds exactly when the input holds no invalid character. Otherwise it reports "invalid token" at the first invalid character. |
| LexerProps.LexedOrdered | tokenize.c:113-150 | Any earlier token ends at or before any later token starts. |
| LexerProps.TokensHoldNoSpace | tokenize.c:115-118 | No character inside a token is whitespace. |
| LexerProps.ScanCoversNonSpace | tokenize.c:113-150 | Every non-space character after the scan's start lies inside some token. |
| LexerProps.TokenizeTilesInput | tokenize.c:113-155 | A character lies in no token exactly when it is whitespace, and it lies in at most one token. |
| Ast.DistinctIsPairwise | parse.c:89-97 | The table's recursive duplicate-freedom is the same as pairwise-distinct entries. |
| Parser.FindVar | parse.c:38-46 | `find_var` returns nothing exactly when no entry has the token's name. Otherwise it returns the first entry with exactly that name. |
| Parser.Declare | parse.c:89-97 | After an identifier, the table holds its name. A known name leaves the table unchanged, and a new one is prepended. |
| Parser.DeclareExtends | parse.c:89-97 | Declaring a name only adds to the table: earlier entries keep their order and stay distinct when they were. |
| Parser.DeclareAllExtends | parse.c:282-306 | Meeting an expression's variables in textual order extends the table to cover all of them. |
| Parser.DeclareListExtends | parse.c:118-130 | The same holds for a statement list. |
| Parser.ParsePrimary | parse.c:282-306 | `primary` consumes at least one token and never consumes the end token. |
| Parser.ParseUnary | parse.c:269-279 | `unary` consumes at least one token and never consumes the end token. |
| Parser.ParseMul | parse.c:244-265 | `mul` consumes at least one token and never consumes the end token. |
| Parser.ParseMulRest | parse.c:244-265 | The `*`/`/` loop of `mul` consumes no token or more and never consumes the end token. |
| Parser.ParseAdd | parse.c:220-241 | `add` consumes at least one token and never consumes the end token. |
| Parser.ParseAddRest | parse.c:220-241 | The `+`/`-` loop of `add` consumes no token or more and never consumes the end token. |
| Parser.ParseRelational | parse.c:184-217 | `relational` consumes at least one token and never consumes the end token. |
| Parser.ParseRelationalRest | parse.c:184-217 | The `<`/`<=`/`>`/`>=` loop of `relational` consumes no token or more and never consumes the end token. |
| Parser.ParseEquality | parse.c:160-181 | `equality` consumes at least one token and never consumes the end token. |
| Parser.ParseEqualityRest | parse.c:160-181 | The `==`/`!=` loop of `equality` consumes no token or more and never consumes the end token. |
| Parser.ParseAssign | parse.c:149-157 | `assign` consumes at least one token and never consumes the end token. |
| Parser.ParseExpr | parse.c:142-146 | `expr` consumes at least one token and never consumes the end token. |
| Parser.ParseExprStmt | parse.c:133-139 | `expr_stmt` consumes at least one token and never consumes the end token. |
| Parser.ParseStmt | parse.c:102-115 | `stmt` consumes at least one token and never consumes the end token. |
| Parser.ParseStmtList | parse.c:123-128 | The statement loop of `compound_stmt` consumes at least one token, the `}` it stops at included, and never consumes the end token. |
| Parser.ParseCompoundStmt | parse.c:118-130 | `compound_stmt` builds a block and consumes at least one token. |
| Parser.Relation | parse.c:184-217 | A relational node mentions exactly the variables of its two operands, whichever way round `>` puts them. |
| Parser.Parse | parse.c:308-317 | A program parses only if it starts with `{`, and its body is a block. A first token other than `{` fails with "expected '{'" at that token. |
| RoundTrip.ReadUnary | parse.c:269-306 | `unary` reads back an operand, or any parenthesised expression, printed by the printer. It declares the operand's variables in textual order. |
| RoundTrip.ReadMul | parse.c:244-265 | `mul` reads a printed level-1 expression as the starting point of its loop. |
| RoundTrip.ReadAdd | parse.c:220-241 | `add` reads a printed level-2 expression as the starting point of its loop. |
| RoundTrip.ReadRelational | parse.c:184-217 | `relational` reads a printed level-3 expression as the starting point of its loop. |
| RoundTrip.ReadEquality | parse.c:160-181 | `equality` reads a printed level-4 expression as the starting point of its loop. |
| RoundTrip.ReadAssign | parse.c:149-157 | `assign` reads back any printed expression, followed by a token that is no operator, as exactly the tree printed. |
| RoundTrip.ReadStmt | parse.c:102-139 | `stmt` reads back any printed statement (expression, `return`, or block) as exactly that statement. |
| RoundTrip.ReadList | parse.c:118-130 | The statement loop reads back a printed statement list closed by `}`. |
| RoundTrip.ReadProgram | parse.c:308-317 | `parse` reads back any printed block as that block. Its table holds the block's variables once each, the most recently introduced first. |
| ParserTable.ExprTable | parse.c:142-306 | Parsing an expression only extends the table, keeps it duplicate-free and declares every variable the tree mentions. |
| ParserTable.StmtTable | parse.c:102-139 | The same holds for a statement. |
| ParserTable.ListTable | parse.c:118-130 | The same holds for the statement loop of a block. |
| ParserTable.ProgramTable | parse.c:308-317 | A parsed program's table is duplicate-free and holds every variable of its body. |
| ParserProps.LeftAssociative | parse.c:160-265 | Two operators of one level group to the left: `x op1 y op2 z` parses as `(x op1 y) op2 z`, for example `a-b-c`. |
| ParserProps.RightAssociative | parse.c:149-157 | Assignment groups to the right: `x=y=z` parses as `x=(y=z)`. |
| ParserProps.TighterOnRight | parse.c:142-279 | For numbers or variables `a`, `b`, `c` and an operator `op1` tighter than `op2`, `a op2 b op1 c` parses as `a op2 (b op1 c)`, as in `a+b*c`. |
| ParserProps.TighterOnLeft | parse.c:142-279 | For numbers or variables `a`, `b`, `c` and an operator `op1` tighter than `op2`, `a op1 b op2 c` parses as `(a op1 b) op2 c`, as in `a*b+c`. |
| ParserProps.GreaterSwaps | parse.c:202-211 | `x>y` parses as `y<x` and `x>=y` as `y<=x`, and the variables are declared in textual order. |
| ParserProps.UnaryMinus | parse.c:275-276 | `-x` parses as `0-x`. |
| ParserProps.UnaryPlus | parse.c:272-273 | `+x` parses as `x` itself. |
| ParserProps.IdentDeclares | parse.c:291-297 | After an identifier, the table stays duplicate-free and holds exactly one entry with that name, the one `find_var` returns. A new name is prepended. |
| ParserProps.ExpectedExpression | parse.c:305 | A token that is not `(`, `+`, `-`, an identifier or a number cannot start an expression. The error is "expected an expression" at that token. |
| ParserProps.ExpectedSemicolon | parse.c:133-139 | An expression statement not followed by `;` fails with "expected ';'" at the token after the expression. |
| ParserProps.ReturnExpectsSemicolon | parse.c:105-108 | A `return` statement not followed by `;` fails with "expected ';'" at the token after the expression. |
| ParserProps.CompoundEndsAtBrace | parse.c:118-130 | A successful block parse ends just after a `}` token, though not necessarily the matching one. |
| CodeGen.SlotOffset | codegen.c:25 | Every letter's slot offset is a multiple of 8 in [8, 208], inside the 208 bytes the prologue reserves. |
| CodeGen.SlotOffsetInjective | codegen.c:25 | Distinct letters get distinct slots. |
| CodeGen.Push | codegen.c:5-10 | `push` emits one push and raises the counter by exactly one. |
| CodeGen.Pop | codegen.c:12-17 | `pop` emits one pop and lowers the counter by exactly one. |
| CodeGen.GenAddr | codegen.c:21-31 | `gen_addr` succeeds exactly for a variable, with one address load of an in-frame slot. Anything else fails with "not an lvalue". |
| CodeGen.GenExpr | codegen.c:34-97 | `gen_expr` leaves the counter where it found it. Its only failure is "not an lvalue". |
| CodeGen.GenStmt | codegen.c:99-108 | Only an expression statement has code. `return`, blocks and anything else fail with "invalid statement". |
| CodeGen.OpCode | codegen.c:61-92 | The operator code is one to three instructions and never pushes or pops. It starts with `cmp` exactly for the four comparisons. |
| CodeGen.GenStmts | codegen.c:122-125 | The statement loop succeeds only if every statement is an expression statement. Started at depth 0, it fails only with "invalid statement" or "not an lvalue", never at the `assert(depth == 0)` after a statement. |
| CodeGen.Codegen | codegen.c:110-130 | `codegen` succeeds only if every statement is an expression statement. It fails only with "invalid statement" or "not an lvalue", never at its `assert(depth == 0)`. |
| CodeGenProps.GenExprSucceeds | codegen.c:21-53 | `gen_expr` succeeds exactly when every assignment target is a variable. It fails only with "not an lvalue". |
| CodeGenProps.GenExprBalanced | codegen.c:34-97 | The counter's net change over an expression's code is 0, and at no point does it go below its starting value. |
| CodeGenProps.BinaryLayout | codegen.c:56-59 | A binary node's code is the right operand's code, `push`, the left operand's code, `pop rdi`, then the operator sequence. |
| CodeGenProps.AssignLayout | codegen.c:45-51 | An assignment's code is the slot address, `push`, the value's code, `pop rdi` and the store. |
| CodeGenProps.OpCodeShape | codegen.c:61-92 | Exactly the comparisons emit `cmp`, one `set<cc>` and `movzx`. Division emits `cqo; idiv`. No operator sequence pushes or pops. |
| CodeGenProps.GenExprInFrame | codegen.c:21-31 | Every slot address an expression's code uses lies inside the reserved frame. |
| CodeGenProps.GenStmtsSucceeds | codegen.c:110-125 | The statement loop succeeds exactly when every statement is an expression statement with variable targets, so the check that `depth` is 0 after each statement never fails. Errors are "invalid statement" or "not an lvalue". |
| CodeGenProps.CodegenShape | codegen.c:110-130 | `codegen` output starts with the three directives and the prologue reserving 208 bytes, and ends with the epilogue. Every slot in it is in the frame. |
| Machine.TruncDivSpec | codegen.c:71-73 | The truncating quotient times the divisor lies between 0 and the dividend, and misses it by less than the divisor. This is C and `idiv` division, unlike Dafny's Euclidean `/`. |
| Machine.TruncDivVsEuclid | codegen.c:71-73 | C's truncating division is odd in the sign of either operand. For a positive divisor it equals Euclidean division on a non-negative dividend; on a negative one it equals it when the division is exact and is one above it otherwise. |
| Machine.OpCodeCorrect | codegen.c:61-92 | With the left operand in `rax` and the right in `rdi`, each operator sequence leaves the operation's result in `rax`, with 0 or 1 for a comparison. Stack and memory are unchanged. |
| Machine.CompareCorrect | codegen.c:76-92 | `cmp`, `set<cc>`, `movzx` leaves exactly 1 in `rax` when the comparison holds and 0 otherwise. |
| Machine.DivByZeroTraps | codegen.c:71-73 | Division by a zero `rdi` traps. |
| Machine.GenExprCorrect | codegen.c:34-97 | An expression's code, run from memory that agrees with the variables, leaves the expression's value in `rax` and the stack as it found it. Afterwards memory agrees with the variables as the expression left them. |
| Machine.GenAssignCorrect | codegen.c:45-51 | An assignment's code stores the value in the variable's slot and leaves the assigned value in `rax`. |
| Machine.GenBinaryCorrect | codegen.c:56-92 | A binary node's code computes the operator on the left value (in `rax`) and the right value (in `rdi`). |
| Machine.GenStmtsCorrect | codegen.c:122-125 | The statement list's code leaves the last statement's value in `rax` and the stack unchanged. |
| Machine.CodegenCorrect | codegen.c:110-130 | The whole program, prologue and epilogue included, run on any machine state, ends with the value of the last statement in `rax` and the stack as it started. |

## Left out

- `main.c` is not part of this model. It checks the argument count and calls the stages, and it passes the parser's `struct function *` where `codegen` takes a statement list.
- Diagnostics are printed to stderr and the process exits. The model returns an error carrying an offset and a message instead. The caret column of `error_at` is that offset.
- Partial output is not modelled. `codegen` prints instructions before it reaches an error, while `CodeGen.Codegen` returns only the error.
- ParserProps.CompoundEndsAtBrace: states only that a block ends just after a `}`. That this `}` is the matching one, and that `Parser.Parse` does not depend on the tokens after it, are shown only for printed blocks, by `RoundTrip.ReadList` and `RoundTrip.ReadProgram`.
- Lexer.Tokenize requires an input with no NUL character. The C input is a NUL-terminated string, so a NUL would end it early.
- The character classes are fixed to the ASCII "C" locale. The library's `isspace`, `isdigit` and `ispunct` depend on the locale.
- `strtoul` followed by the store into an `int` is modelled by `Chars.CInt`: saturation at 2^64-1, then the low 32 bits as a signed number. The `strtoul` end pointer is replaced by the maximal digit run it stops at.
- The syntax tree has separate expression and statement sorts. So codegen's "invalid expression" default (`codegen.c:94-95`) cannot be reached in the model, and the model has no counterpart for it.
- CodeGen.GenExpr requires every variable name to be one lower-case letter. `codegen.c` reads a variable's name as a single character, and its offset formula is only meaningful for `a` to `z`.
- Machine.Step uses mathematical integers. 64-bit wrap-around of `add`, `sub` and `imul`, and the overflow of `idiv`, are not modelled.
- Machine.Step leaves out `rdx`: `cqo` is a no-op, and `idiv` yields only the truncating quotient in `rax`.
- Machine.Step treats the frame instructions (`push rbp`, `mov rbp, rsp`, `sub rsp`, `mov rsp, rbp`, `pop rbp`, `ret`) and the assembler directives as no-ops. The value stack is kept apart from slot memory, and a slot's address is the negated offset below `rbp`.
- Machine.Eval treats reading a variable never assigned as undefined. The C code reads whatever the frame slot holds.
- Machine.CodegenCorrect does not state the final memory; the memory facts are stated per statement by Machine.GenStmtsCorrect.
- The `return` and block statements have no code in this snapshot (`gen_stmt` rejects them), so the machine gives them no meaning.
