/** The opcode numbering of api/router/util/pattern.go. */
module OpCodes {
  const NOP := 0
  const PUSH := 1
  const LIT_PUSH := 2
  const PUSH_M := 3
  const CONCAT_N := 4
  const CAPTURE := 5
}
