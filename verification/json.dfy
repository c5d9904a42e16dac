/** JSON values as the server and the client handle them: the value tree,
    `JSON.stringify` (with the string quoting of ECMA-262, QuoteJSONString),
    a decoder for JSON string literals (section 7 of RFC 8259) that inverts
    that quoting, member lookup and JavaScript truthiness. */
module Json {
  import opened Text
  import opened Wrappers

  /** A parsed JSON value. A number keeps its textual form; object members
      are listed in the order the runtime enumerates them. */
  datatype Value =
    | Null
    | Bool(b: bool)
    | Num(repr: string)
    | Str(s: string)
    | Arr(items: seq<Value>)
    | Obj(members: seq<(string, Value)>)

  /** Lower-case hexadecimal digit, as QuoteJSONString writes them. */
  function HexDigit(d: nat): (c: char)
    requires d < 16
    ensures IsHexChar(c)
  {
    if d < 10 then ('0' as int + d) as char else ('a' as int + d - 10) as char
  }

  predicate IsHexChar(c: char) {
    ('0' <= c <= '9') || ('a' <= c <= 'f') || ('A' <= c <= 'F')
  }

  function HexValue(c: char): (d: nat)
    requires IsHexChar(c)
    ensures d < 16
  {
    if '0' <= c <= '9' then c as int - '0' as int
    else if 'a' <= c <= 'f' then c as int - 'a' as int + 10
    else c as int - 'A' as int + 10
  }

  /** The escaped form of one character inside a JSON string literal, as
      QuoteJSONString produces it: the two-character escapes for quote,
      backslash, backspace, tab, line feed, form feed and carriage return,
      `\u00xx` for the other control characters, the character itself
      otherwise. */
  function EscapeChar(c: char): (r: string)
    ensures r != [] && '\n' !in r && '\r' !in r
    ensures r[0] == '\\' || (r == [c] && c != '"' && c >= ' ')
  {
    if c == '"' then "\\\""
    else if c == '\\' then "\\\\"
    else if c == '\U{0008}' then "\\b"
    else if c == '\t' then "\\t"
    else if c == '\n' then "\\n"
    else if c == '\U{000C}' then "\\f"
    else if c == '\r' then "\\r"
    else if c < ' ' then "\\u00" + [HexDigit(c as int / 16), HexDigit(c as int % 16)]
    else [c]
  }

  function EscapeString(s: string): (r: string)
    ensures '\n' !in r && '\r' !in r
  {
    if s == [] then [] else EscapeChar(s[0]) + EscapeString(s[1..])
  }

  /** QuoteJSONString: the string wrapped in double quotes, escaped. */
  function Quote(s: string): string {
    "\"" + EscapeString(s) + "\""
  }

  /** `JSON.stringify` with no indentation. */
  function Stringify(v: Value): string
    decreases v, 1
  {
    match v
    case Null => "null"
    case Bool(b) => if b then "true" else "false"
    case Num(repr) => repr
    case Str(s) => Quote(s)
    case Arr(items) => "[" + Join(StringifyItems(items), ",") + "]"
    case Obj(members) => "{" + Join(StringifyMembers(members), ",") + "}"
  }

  function StringifyItems(items: seq<Value>): (r: seq<string>)
    ensures |r| == |items|
    decreases items, 0
  {
    if items == [] then [] else [Stringify(items[0])] + StringifyItems(items[1..])
  }

  function StringifyMembers(members: seq<(string, Value)>): (r: seq<string>)
    ensures |r| == |members|
    decreases members, 0
  {
    if members == [] then []
    else
      var m := members[0];
      assert m in members && m.1 < m;
      [Quote(m.0) + ":" + Stringify(m.1)] + StringifyMembers(members[1..])
  }

  /** No character of `s` is a line feed or a carriage return. */
  predicate SingleLine(s: string) {
    '\n' !in s && '\r' !in s
  }

  /** Every number in `v` is written on one line. */
  predicate NumbersSingleLine(v: Value)
    decreases v
  {
    match v
    case Num(repr) => SingleLine(repr)
    case Arr(items) => forall i :: 0 <= i < |items| ==> NumbersSingleLine(items[i])
    case Obj(members) => forall i :: 0 <= i < |members| ==> NumbersSingleLine(members[i].1)
    case _ => true
  }

  lemma {:induction false} JoinSingleLine(parts: seq<string>, sep: string)
    requires SingleLine(sep)
    requires forall i :: 0 <= i < |parts| ==> SingleLine(parts[i])
    ensures SingleLine(Join(parts, sep))
  {
    if |parts| > 1 {
      JoinSingleLine(parts[1..], sep);
    }
  }

  /** The text `JSON.stringify` produces never contains a raw line break:
      line feeds and carriage returns inside strings and keys are escaped.
      This is what lets a payload sit on one `data:` line of an event
      stream. */
  lemma {:induction false} StringifySingleLine(v: Value)
    requires NumbersSingleLine(v)
    ensures SingleLine(Stringify(v))
    decreases v, 1
  {
    match v
    case Arr(items) =>
      ItemsSingleLine(items);
      JoinSingleLine(StringifyItems(items), ",");
    case Obj(members) =>
      MembersSingleLine(members);
      JoinSingleLine(StringifyMembers(members), ",");
    case _ =>
  }

  lemma {:induction false} ItemsSingleLine(items: seq<Value>)
    requires forall i :: 0 <= i < |items| ==> NumbersSingleLine(items[i])
    ensures forall i :: 0 <= i < |items| ==> SingleLine(StringifyItems(items)[i])
    decreases items, 0
  {
    if items != [] {
      StringifySingleLine(items[0]);
      ItemsSingleLine(items[1..]);
    }
  }

  lemma {:induction false} MembersSingleLine(members: seq<(string, Value)>)
    requires forall i :: 0 <= i < |members| ==> NumbersSingleLine(members[i].1)
    ensures forall i :: 0 <= i < |members| ==> SingleLine(StringifyMembers(members)[i])
    decreases members, 0
  {
    if members != [] {
      var m := members[0];
      assert m in members && m.1 < m;
      StringifySingleLine(m.1);
      MembersSingleLine(members[1..]);
    }
  }

  /** Decodes one character (or escape sequence) of a string literal body:
      the character and what follows it, or None at a closing quote, a raw
      control character, an unknown escape or the end of input. A `\uXXXX`
      escape that names a surrogate code unit is accepted only as the high
      half of a pair. */
  function DecodeUnit(t: string): (r: Option<(char, string)>)
    ensures r.Some? ==> |r.value.1| < |t|
  {
    if t == [] || t[0] == '"' || t[0] < ' ' then None
    else if t[0] != '\\' then Some((t[0], t[1..]))
    else if |t| < 2 then None
    else if t[1] == '"' then Some(('"', t[2..]))
    else if t[1] == '\\' then Some(('\\', t[2..]))
    else if t[1] == '/' then Some(('/', t[2..]))
    else if t[1] == 'b' then Some(('\U{0008}', t[2..]))
    else if t[1] == 'f' then Some(('\U{000C}', t[2..]))
    else if t[1] == 'n' then Some(('\n', t[2..]))
    else if t[1] == 'r' then Some(('\r', t[2..]))
    else if t[1] == 't' then Some(('\t', t[2..]))
    else if t[1] == 'u' then
      match HexQuad(t[2..])
      case None => None
      case Some(u) =>
        if u < 0xD800 || 0xE000 <= u then Some((u as char, t[6..]))
        else if u >= 0xDC00 || |t| < 8 || t[6] != '\\' || t[7] != 'u' then None
        else match HexQuad(t[8..])
          case None => None
          case Some(w) =>
            if 0xDC00 <= w < 0xE000 then
              Some(((0x10000 + (u - 0xD800) * 0x400 + (w - 0xDC00)) as char, t[12..]))
            else None
    else None
  }

  /** The value of four hexadecimal digits at the start of `t`. */
  function HexQuad(t: string): (r: Option<nat>)
    ensures r.Some? ==> |t| >= 4 && r.value < 0x10000
  {
    if |t| < 4 || !IsHexChar(t[0]) || !IsHexChar(t[1]) || !IsHexChar(t[2]) || !IsHexChar(t[3]) then None
    else Some(((HexValue(t[0]) * 16 + HexValue(t[1])) * 16 + HexValue(t[2])) * 16 + HexValue(t[3]))
  }

  /** Decodes a string literal body up to and including its closing quote:
      the decoded string and the input after the quote. */
  function DecodeBody(t: string): Option<(string, string)>
    decreases |t|
  {
    if t != [] && t[0] == '"' then Some(("", t[1..]))
    else match DecodeUnit(t)
      case None => None
      case Some((c, rest)) =>
        match DecodeBody(rest)
        case None => None
        case Some((s, after)) => Some(([c] + s, after))
  }

  /** Decodes a JSON string literal at the start of `t`. */
  function DecodeString(t: string): Option<(string, string)> {
    if t != [] && t[0] == '"' then DecodeBody(t[1..]) else None
  }

  lemma DecodeEscapedChar(c: char, rest: string)
    ensures DecodeUnit(EscapeChar(c) + rest) == Some((c, rest))
  {
    var e := EscapeChar(c);
    if c < ' ' && c != '\U{0008}' && c != '\t' && c != '\n' && c != '\U{000C}' && c != '\r' {
      var t := e + rest;
      var hi, lo := c as int / 16, c as int % 16;
      assert t[2..] == ['0', '0', HexDigit(hi), HexDigit(lo)] + rest;
      assert HexValue(HexDigit(hi)) == hi && HexValue(HexDigit(lo)) == lo;
      assert t[6..] == rest;
    } else if e == [c] {
      assert (e + rest)[1..] == rest;
    } else {
      assert (e + rest)[2..] == rest;
    }
  }

  /** Decoding the quoted form of a string gives the string back, and leaves
      whatever followed the closing quote untouched. */
  lemma {:induction false} QuoteRoundTrip(s: string, rest: string)
    ensures DecodeString(Quote(s) + rest) == Some((s, rest))
  {
    EscapedBodyRoundTrip(s, rest);
    assert (Quote(s) + rest)[1..] == EscapeString(s) + "\"" + rest;
  }

  lemma {:induction false} EscapedBodyRoundTrip(s: string, rest: string)
    ensures DecodeBody(EscapeString(s) + "\"" + rest) == Some((s, rest))
  {
    if s == [] {
      assert EscapeString(s) + "\"" + rest == "\"" + rest;
    } else {
      var e := EscapeChar(s[0]);
      var tail := EscapeString(s[1..]) + "\"" + rest;
      var t := EscapeString(s) + "\"" + rest;
      assert t == e + tail;
      assert t[0] == e[0] != '"';
      DecodeEscapedChar(s[0], tail);
      EscapedBodyRoundTrip(s[1..], rest);
      assert DecodeBody(t) == Some(([s[0]] + s[1..], rest));
      assert [s[0]] + s[1..] == s;
    }
  }

  /** Quoting is injective: different strings never share a wire form. */
  lemma QuoteInjective(s: string, t: string)
    ensures Quote(s) == Quote(t) ==> s == t
  {
    QuoteRoundTrip(s, "");
    QuoteRoundTrip(t, "");
    assert Quote(s) + "" == Quote(s) && Quote(t) + "" == Quote(t);
  }

  /** The value a property read `o.key` gives on an object: the last member
      with that key (later duplicates override earlier ones), or None for
      undefined. */
  function Lookup(members: seq<(string, Value)>, key: string): (r: Option<Value>)
    ensures r.Some? <==> exists i :: 0 <= i < |members| && members[i].0 == key
    ensures r.Some? ==>
      exists i :: 0 <= i < |members| && members[i].0 == key && members[i].1 == r.value &&
        forall j :: i < j < |members| ==> members[j].0 != key
  {
    if members == [] then None
    else if members[|members| - 1].0 == key then Some(members[|members| - 1].1)
    else
      var init := members[..|members| - 1];
      var r := Lookup(init, key);
      assert forall i :: 0 <= i < |init| ==> init[i] == members[i];
      if r.Some? then
        var i :| 0 <= i < |init| && init[i].0 == key && init[i].1 == r.value &&
                 forall j :: i < j < |init| ==> init[j].0 != key;
        assert forall j :: i < j < |members| ==> members[j].0 != key;
        r
      else r
  }

  /** A numeral denotes zero when every digit of its mantissa is `0`. */
  predicate NumeralIsZero(repr: string) {
    forall i :: 0 <= i < |repr| && '1' <= repr[i] <= '9' ==> exists j :: 0 <= j < i && (repr[j] == 'e' || repr[j] == 'E')
  }

  /** JavaScript truthiness of a JSON value: null, false, zero and the empty
      string are falsy; every array and object is truthy. */
  predicate Truthy(v: Value) {
    match v
    case Null => false
    case Bool(b) => b
    case Num(repr) => !NumeralIsZero(repr)
    case Str(s) => s != ""
    case Arr(_) => true
    case Obj(_) => true
  }

  /** `value || fallback` applied to an optional property value (None is
      `undefined`, which is falsy). */
  function OrElse(v: Option<Value>, fallback: Value): Value {
    if v.Some? && Truthy(v.value) then v.value else fallback
  }
}
