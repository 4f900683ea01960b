/** Types shared by the models. */
module Basics {

  datatype Option<+T> = None | Some(value: T)

  /** A UTF-16 code unit; LChar text only uses the first 256 of them. */
  type CodeUnit = c: int | 0 <= c < 0x10000

  type Text = seq<CodeUnit>
}
