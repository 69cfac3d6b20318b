/** JSON texts as RFC 8259 writes them: objects (section 4), arrays (section 5) and strings
    (section 7), with insignificant whitespace (section 2) wherever the grammar allows it. */
module Json {
  /** A character of a string: itself, a two-character escape, or `\uXXXX`. */
  datatype Char = Plain(c: char) | Escape(c: char) | Unicode(hex: string)

  datatype Value =
    | Atom(text: string)  // a number (section 6) or one of the three literal names (section 3)
    | Str(chars: seq<Char>)
    | Arr(pad: string, items: Items)
    | Obj(pad: string, members: Members)

  datatype Items = NoItems | Item(before: string, value: Value, after: string, rest: Items)

  datatype Members =
    | NoMembers
    | Member(before: string, key: seq<Char>, beforeColon: string, afterColon: string, value: Value, after: string,
             rest: Members)

  predicate IsSpace(s: string) {
    forall c | c in s :: c == ' ' || c == '\t' || c == '\n' || c == '\r'
  }

  predicate IsAtomChar(c: char) {
    '0' <= c <= '9' || 'a' <= c <= 'z' || c == 'E' || c == '+' || c == '-' || c == '.'
  }

  predicate IsHex(c: char) {
    '0' <= c <= '9' || 'a' <= c <= 'f' || 'A' <= c <= 'F'
  }

  predicate GoodChar(c: Char) {
    match c
    case Plain(c) => c != '"' && c != '\\' && ' ' <= c
    case Escape(c) => c in "\"\\/bfnrt"
    case Unicode(hex) => |hex| == 4 && forall h | h in hex :: IsHex(h)
  }

  predicate GoodString(chars: seq<Char>) {
    forall c | c in chars :: GoodChar(c)
  }

  predicate Good(v: Value) {
    match v
    case Atom(text) => text != "" && forall c | c in text :: IsAtomChar(c)
    case Str(chars) => GoodString(chars)
    case Arr(pad, items) => IsSpace(pad) && GoodItems(items)
    case Obj(pad, members) => IsSpace(pad) && GoodMembers(members)
  }

  predicate GoodItems(items: Items) {
    match items
    case NoItems => true
    case Item(before, value, after, rest) => IsSpace(before) && Good(value) && IsSpace(after) && GoodItems(rest)
  }

  predicate GoodMembers(members: Members) {
    match members
    case NoMembers => true
    case Member(before, key, beforeColon, afterColon, value, after, rest) =>
      && IsSpace(before) && GoodString(key) && IsSpace(beforeColon) && IsSpace(afterColon)
      && Good(value) && IsSpace(after) && GoodMembers(rest)
  }

  predicate IsContainer(v: Value) {
    v.Arr? || v.Obj?
  }

  function PrintChar(c: Char): string {
    match c
    case Plain(c) => [c]
    case Escape(c) => ['\\', c]
    case Unicode(hex) => "\\u" + hex
  }

  function PrintChars(chars: seq<Char>): string {
    if chars == [] then "" else PrintChar(chars[0]) + PrintChars(chars[1..])
  }

  function PrintString(chars: seq<Char>): string {
    "\"" + PrintChars(chars) + "\""
  }

  function Print(v: Value): string {
    match v
    case Atom(text) => text
    case Str(chars) => PrintString(chars)
    case Arr(pad, items) => "[" + (pad + PrintItems(items)) + "]"
    case Obj(pad, members) => "{" + (pad + PrintMembers(members)) + "}"
  }

  function PrintItems(items: Items): string {
    match items
    case NoItems => ""
    case Item(before, value, after, rest) =>
      before + Print(value) + after + (if rest.NoItems? then "" else "," + PrintItems(rest))
  }

  function PrintMembers(members: Members): string {
    match members
    case NoMembers => ""
    case Member(before, key, beforeColon, afterColon, value, after, rest) =>
      before + PrintString(key) + (beforeColon + ":" + afterColon) + Print(value) + after
      + (if rest.NoMembers? then "" else "," + PrintMembers(rest))
  }
}
