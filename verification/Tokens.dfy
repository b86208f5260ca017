/** Tokens of the assembly language, with where they stand in the source. */
module Tokens {
  import opened Bytes

  /** An integer's kind keeps the base its prefix selected. */
  datatype Kind =
    | Identifier | LabelInit | LabelUse | Directive | Register
    | StringLiteral | CharLiteral | Integer(base: nat)
    | Comma | Comment | Newline

  datatype Location = Location(pos: nat, line: nat, col: nat, size: nat)

  datatype Token = Token(kind: Kind, text: CString, place: Location)
}
