/** The assembler's error codes that its modelled phases can report. */
module Diagnostics {
  datatype Diagnostic =
    | UnterminatedLiteral
    | MalformedNumber
    | NumberOverflow
    | InvalidDirective
    | UnknownOpcode
    | InvalidOperands
    | UnknownRegister
    | UnknownLabel
    | ValueOutOfRange
    | OutputTooLarge
    | InternalError
    | MacroDuplicateDefinition
    | MacroUndefined
    | MacroInvalidArgument
    | MacroRecursion
    | SectionError
}
