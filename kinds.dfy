/**
 * The reserved tokens of lightscript: the operator and punctuation kinds and
 * the keyword kinds that the two symbol tables of source/tokens.cpp name.
 * The enumeration itself lives in a header that is not part of this model;
 * its constructors here are exactly the 62 kinds the tables mention.
 */
module Tokens {

  datatype ReservedToken =
    // arithmetic
    | Inc | Dec | Add | Sub | Mul | Div | Idiv | Mod
    // bitwise
    | BitwiseNot | BitwiseAnd | BitwiseOr | BitwiseXor | Shiftl | Shiftr
    // assignment and compound assignment
    | Assign
    | AddAssign | SubAssign | MulAssign | DivAssign | IdivAssign | ModAssign
    | AndAssign | OrAssign | XorAssign | ShiftlAssign | ShiftrAssign
    // logical
    | LogicalNot | LogicalAnd | LogicalOr
    // comparison
    | Eq | Ne | Lt | Gt | Le | Ge
    // punctuation
    | Question | Colon | Comma | Semicolon
    | OpenRound | CloseRound | OpenCurly | CloseCurly | OpenSquare | CloseSquare
    // keywords
    | KwIf | KwElse | KwElif
    | KwSwitch | KwCase | KwDefault
    | KwFor | KwWhile | KwDo
    | KwBreak | KwContinue | KwReturn
    | KwVar | KwFun
    | KwVoid | KwNumber | KwString
}
