/**
 * The byte strings of the keywords (`mod kw` of src/tokenizer.rs), in the
 * order the lexer tries them: longest first.
 */
module Kw {
  const Continue: seq<bv8> := [0x63, 0x6F, 0x6E, 0x74, 0x69, 0x6E, 0x75, 0x65]  // "continue"
  const Packed: seq<bv8> := [0x70, 0x61, 0x63, 0x6B, 0x65, 0x64]  // "packed"
  const Struct: seq<bv8> := [0x73, 0x74, 0x72, 0x75, 0x63, 0x74]  // "struct"
  const Union: seq<bv8> := [0x75, 0x6E, 0x69, 0x6F, 0x6E]  // "union"
  const Defer: seq<bv8> := [0x64, 0x65, 0x66, 0x65, 0x72]  // "defer"
  const While: seq<bv8> := [0x77, 0x68, 0x69, 0x6C, 0x65]  // "while"
  const Break: seq<bv8> := [0x62, 0x72, 0x65, 0x61, 0x6B]  // "break"
  const Enum: seq<bv8> := [0x65, 0x6E, 0x75, 0x6D]  // "enum"
  const Then: seq<bv8> := [0x74, 0x68, 0x65, 0x6E]  // "then"
  const Else: seq<bv8> := [0x65, 0x6C, 0x73, 0x65]  // "else"
  const Loop: seq<bv8> := [0x6C, 0x6F, 0x6F, 0x70]  // "loop"
  const And: seq<bv8> := [0x61, 0x6E, 0x64]  // "and"
  const Xor: seq<bv8> := [0x78, 0x6F, 0x72]  // "xor"
  const Not: seq<bv8> := [0x6E, 0x6F, 0x74]  // "not"
  const Pub: seq<bv8> := [0x70, 0x75, 0x62]  // "pub"
  const Or: seq<bv8> := [0x6F, 0x72]  // "or"
  const Fn: seq<bv8> := [0x66, 0x6E]  // "fn"
  const If: seq<bv8> := [0x69, 0x66]  // "if"
}

/**
 * The byte strings of the operators and punctuation (`mod op` of
 * src/tokenizer.rs): the two-byte ones first, then the one-byte ones.
 */
module Op {
  const Equals: seq<bv8> := [0x3D, 0x3D]  // "=="
  const NotEquals: seq<bv8> := [0x21, 0x3D]  // "!="
  const LessEqual: seq<bv8> := [0x3C, 0x3D]  // "<="
  const GreaterEqual: seq<bv8> := [0x3E, 0x3D]  // ">="
  const Feather: seq<bv8> := [0x3E, 0x2D]  // ">-"
  const Arrow: seq<bv8> := [0x2D, 0x3E]  // "->"
  const LShift: seq<bv8> := [0x3C, 0x3C]  // "<<"
  const RShift: seq<bv8> := [0x3E, 0x3E]  // ">>"
  const Incr: seq<bv8> := [0x2B, 0x2B]  // "++"
  const Decr: seq<bv8> := [0x2D, 0x2D]  // "--"
  const Pow: seq<bv8> := [0x2A, 0x2A]  // "**"
  const Modulo: seq<bv8> := [0x25]  // "%"
  const LessThan: seq<bv8> := [0x3C]  // "<"
  const GreaterThan: seq<bv8> := [0x3E]  // ">"
  const Ampersand: seq<bv8> := [0x26]  // "&"
  const Pipe: seq<bv8> := [0x7C]  // "|"
  const Caret: seq<bv8> := [0x5E]  // "^"
  const Tilde: seq<bv8> := [0x7E]  // "~"
  const Plus: seq<bv8> := [0x2B]  // "+"
  const Minus: seq<bv8> := [0x2D]  // "-"
  const Mul: seq<bv8> := [0x2A]  // "*"
  const Div: seq<bv8> := [0x2F]  // "/"
  const Equal: seq<bv8> := [0x3D]  // "="
  const Semi: seq<bv8> := [0x3B]  // ";"
  const Colon: seq<bv8> := [0x3A]  // ":"
  const Comma: seq<bv8> := [0x2C]  // ","
  const Dot: seq<bv8> := [0x2E]  // "."
  const LParens: seq<bv8> := [0x28]  // "("
  const RParens: seq<bv8> := [0x29]  // ")"
  const LBracket: seq<bv8> := [0x5B]  // "["
  const RBracket: seq<bv8> := [0x5D]  // "]"
  const LBrace: seq<bv8> := [0x7B]  // "{"
  const RBrace: seq<bv8> := [0x7D]  // "}"
}
