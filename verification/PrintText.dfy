/** The text that the cJSON printers denote: what both the two-pass and the buffered printer must produce. */
module PrintText {
  import opened Bytes
  import opened Json

  /** Decimal digits of a natural number, most significant first. */
  function Digits(n: nat): (ds: bytes)
    ensures ds != [] && forall i :: 0 <= i < |ds| ==> IsDigit(ds[i])
    ensures ds[0] == 48 ==> n == 0
  {
    if n < 10 then [48 + n] else Digits(n / 10) + [48 + n % 10]
  }

  /** What `sprintf("%d")` writes. */
  function IntText(n: int): bytes {
    if n < 0 then [MINUS] + Digits(-n) else Digits(n)
  }

  /** A byte that print_string_ptr copies unchanged in its escaping branch. */
  predicate IsPlain(c: byte) {
    c > 31 && c != QUOTE && c != BACKSLASH
  }

  function HexDigit(n: nat): byte
    requires n < 16
  {
    if n < 10 then 48 + n else 87 + n
  }

  function EscapeByte(c: byte): (r: bytes)
  {
    if IsPlain(c) then [c]
    else if c == BACKSLASH || c == QUOTE then [BACKSLASH, c]
    else if c == 8 then [BACKSLASH, 98]
    else if c == 12 then [BACKSLASH, 102]
    else if c == NEWLINE then [BACKSLASH, 110]
    else if c == RETURN then [BACKSLASH, 114]
    else if c == TAB then [BACKSLASH, 116]
    else [BACKSLASH, LOWER_U, 48, 48, HexDigit(c / 16), HexDigit(c % 16)]
  }

  function Escape(s: bytes): bytes {
    if s == [] then [] else EscapeByte(s[0]) + Escape(s[1..])
  }

  function StringText(s: bytes): bytes {
    [QUOTE] + Escape(s) + [QUOTE]
  }

  function Tabs(n: int): (ts: bytes)
    ensures |ts| == if n < 0 then 0 else n
    ensures forall i :: 0 <= i < |ts| ==> ts[i] == TAB
  {
    if n <= 0 then [] else seq(n, i => TAB)
  }

  /** The text of a value printed at nesting `depth`, formatted or not. */
  function Text(v: Json, depth: nat, fmt: bool): bytes
    decreases v, 1
  {
    match v
    case Null => NULL_WORD
    case False => FALSE_WORD
    case True => TRUE_WORD
    case Number(d) => IntText(d.Floor)
    case String(s) => StringText(s)
    case Array(items) => [OPEN_BRACKET] + ItemsText(items, depth + 1, fmt) + [CLOSE_BRACKET]
    case Object(members) =>
      if members == [] then
        [OPEN_BRACE] + (if fmt then [NEWLINE] + Tabs(depth - 1) else []) + [CLOSE_BRACE]
      else
        [OPEN_BRACE] + (if fmt then [NEWLINE] else []) + MembersText(members, depth + 1, fmt)
        + (if fmt then Tabs(depth) else []) + [CLOSE_BRACE]
  }

  /** Array elements from some position to the end, without the closing bracket. */
  function ItemsText(items: seq<Json>, depth: nat, fmt: bool): bytes
    decreases items, 0
  {
    if items == [] then []
    else Text(items[0], depth, fmt) + ItemSeparator(|items| > 1, fmt) + ItemsText(items[1..], depth, fmt)
  }

  function ItemSeparator(more: bool, fmt: bool): bytes {
    if !more then [] else if fmt then [COMMA, SPACE] else [COMMA]
  }

  /** Object members from some position to the end, without the closing brace. */
  function MembersText(members: seq<Member>, depth: nat, fmt: bool): bytes
    decreases members, 0
  {
    if members == [] then []
    else
      MemberText(members[0], depth, fmt) + MemberSeparator(|members| > 1, fmt) + MembersText(members[1..], depth, fmt)
  }

  function MemberText(m: Member, depth: nat, fmt: bool): bytes
    decreases m, 0
  {
    NameText(m.name, depth, fmt) + Text(m.value, depth, fmt)
  }

  /** A member up to its value. */
  function NameText(name: bytes, depth: nat, fmt: bool): bytes {
    (if fmt then Tabs(depth) else []) + StringText(name) + (if fmt then [COLON, TAB] else [COLON])
  }

  function MemberSeparator(more: bool, fmt: bool): bytes {
    (if more then [COMMA] else []) + (if fmt then [NEWLINE] else [])
  }
}
