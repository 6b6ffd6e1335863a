/**
 JSON text as JSON.stringify writes it without indentation (sections 4, 5 and 7 of RFC 8259),
 and the proof that the text determines the value: the printer is a prefix code.

 Strings are sequences of Unicode scalar values, so the escape JSON.stringify gives to a lone
 surrogate does not arise. A number is carried by the text ECMAScript prints for it.
 */
module Json {

  predicate IsNumberText(s: string) {
    s != [] && forall i | 0 <= i < |s| :: s[i] in "0123456789+-.eE"
  }

  type NumberText = s: string | IsNumberText(s) witness "0"

  datatype Json =
    | Null
    | Bool(b: bool)
    | Number(digits: NumberText)
    | Text(text: string)
    | Array(items: seq<Json>)
    | Object(members: seq<Member>)

  datatype Member = Member(key: string, value: Json)

  function HexDigit(n: int): char
    requires 0 <= n < 16
  {
    "0123456789abcdef"[n]
  }

  /** Section 7 of RFC 8259: the quotation mark, the reverse solidus and the control characters are escaped. */
  function Escape(c: char): string {
    if c == '\"' then "\\\""
    else if c == '\\' then "\\\\"
    else if c == 8 as char then "\\b"
    else if c == '\t' then "\\t"
    else if c == '\n' then "\\n"
    else if c == 12 as char then "\\f"
    else if c == '\r' then "\\r"
    else if c < ' ' then "\\u00" + [HexDigit(c as int / 16), HexDigit(c as int % 16)]
    else [c]
  }

  function EscapeAll(s: string): string {
    if s == [] then [] else Escape(s[0]) + EscapeAll(s[1..])
  }

  function Quote(s: string): string {
    "\"" + EscapeAll(s) + "\""
  }

  function Print(j: Json): string
    decreases j
  {
    match j
    case Null => "null"
    case Bool(b) => if b then "true" else "false"
    case Number(text) => text
    case Text(text) => Quote(text)
    case Array(items) => "[" + PrintItems(items)
    case Object(members) => "{" + PrintMembers(members)
  }

  /** What follows the first item, or the first member, of a list closed by `close`. */
  function Rest(close: char, more: bool, tail: string): string {
    if more then "," + tail else [close]
  }

  /** The items of an array and its closing bracket. */
  function PrintItems(items: seq<Json>): string
    decreases items
  {
    if items == [] then "]"
    else Print(items[0]) + Rest(']', |items| > 1, PrintItems(items[1..]))
  }

  /** The members of an object and its closing brace. */
  function PrintMembers(members: seq<Member>): string
    decreases members
  {
    if members == [] then "}"
    else
      Quote(members[0].key) + ":" + Print(members[0].value)
      + Rest('}', |members| > 1, PrintMembers(members[1..]))
  }

  // ---- The escape and the quoted string are prefix codes ----

  /** The first two characters of an escape tell its length; a long one differs in its last two digits. */
  lemma EscapeCode(c: char, d: char, s: string, t: string)
    requires Escape(c) + s == Escape(d) + t
    ensures c == d && s == t
  {
    var e, f := Escape(c), Escape(d);
    assert |e| == |f| by {
      assert (e + s)[0] == e[0] && (f + t)[0] == f[0];
      if e[0] == '\\' {
        assert (e + s)[1] == e[1] && (f + t)[1] == f[1];
      }
    }
    SameLengthPrefix(e, f, s, t);
    EscapeInjective(c, d);
  }

  lemma SameLengthPrefix(e: string, f: string, s: string, t: string)
    requires |e| == |f| && e + s == f + t
    ensures e == f && s == t
  {
    assert e == (e + s)[..|e|] && f == (f + t)[..|f|];
    assert s == (e + s)[|e|..] && t == (f + t)[|f|..];
  }

  lemma EscapeInjective(c: char, d: char)
    requires Escape(c) == Escape(d)
    ensures c == d
  {
    if |Escape(c)| == 6 {
      assert Escape(c)[4] == HexDigit(c as int / 16) && Escape(c)[5] == HexDigit(c as int % 16);
      assert Escape(d)[4] == HexDigit(d as int / 16) && Escape(d)[5] == HexDigit(d as int % 16);
      HexInjective(c as int / 16, d as int / 16);
      HexInjective(c as int % 16, d as int % 16);
      assert c as int == d as int;
    } else {
      assert Escape(c)[|Escape(c)| - 1] == Escape(d)[|Escape(d)| - 1];
    }
  }

  lemma HexInjective(m: int, n: int)
    requires 0 <= m < 16 && 0 <= n < 16 && HexDigit(m) == HexDigit(n)
    ensures m == n
  {
  }

  /** An escaped string never shows a bare quotation mark or a newline. */
  lemma EscapeShape(c: char)
    ensures Escape(c) != [] && Escape(c)[0] != '\"' && '\n' !in Escape(c)
  {
  }

  lemma QuotedStep(a: string, s: string)
    requires a != []
    ensures EscapeAll(a) + "\"" + s == Escape(a[0]) + (EscapeAll(a[1..]) + "\"" + s)
    ensures (EscapeAll(a) + "\"" + s)[0] != '\"'
  {
    var first, rest := Escape(a[0]), EscapeAll(a[1..]);
    EscapeShape(a[0]);
    assert EscapeAll(a) == first + rest;
    assert first + rest + "\"" + s == first + (rest + "\"" + s);
  }

  lemma {:induction false} QuotedCode(a: string, b: string, s: string, t: string)
    requires EscapeAll(a) + "\"" + s == EscapeAll(b) + "\"" + t
    ensures a == b && s == t
  {
    if a == [] || b == [] {
      if a != [] { QuotedStep(a, s); }
      if b != [] { QuotedStep(b, t); }
      assert s == (EscapeAll(a) + "\"" + s)[1..] && t == (EscapeAll(b) + "\"" + t)[1..];
    } else {
      QuotedStep(a, s);
      QuotedStep(b, t);
      EscapeCode(a[0], b[0], EscapeAll(a[1..]) + "\"" + s, EscapeAll(b[1..]) + "\"" + t);
      QuotedCode(a[1..], b[1..], s, t);
      assert a == [a[0]] + a[1..] && b == [b[0]] + b[1..];
    }
  }

  lemma QuoteCode(a: string, b: string, s: string, t: string)
    requires Quote(a) + s == Quote(b) + t
    ensures a == b && s == t
  {
    assert (Quote(a) + s)[1..] == EscapeAll(a) + "\"" + s;
    assert (Quote(b) + t)[1..] == EscapeAll(b) + "\"" + t;
    QuotedCode(a, b, s, t);
  }

  // ---- The whole printer is a prefix code ----

  /** What may follow a value: nothing, a comma, or a closing bracket or brace. */
  predicate Ends(s: string) {
    s == [] || s[0] in ",]}"
  }

  /** The first character tells the kind of value; it is never a delimiter. */
  lemma FirstChar(j: Json)
    ensures Print(j) != []
    ensures Print(j)[0] ==
            match j {
              case Null => 'n'
              case Bool(b) => if b then 't' else 'f'
              case Number(text) => text[0]
              case Text(_) => '\"'
              case Array(_) => '['
              case Object(_) => '{'
            }
    ensures Print(j)[0] !in ",]}"
  {
  }

  lemma Head(a: string, s: string)
    ensures if a == [] then a + s == s else a + s != [] && (a + s)[0] == a[0]
  {
  }

  lemma {:induction false} NumberCode(a: string, b: string, s: string, t: string)
    requires forall i | 0 <= i < |a| :: a[i] in "0123456789+-.eE"
    requires forall i | 0 <= i < |b| :: b[i] in "0123456789+-.eE"
    requires Ends(s) && Ends(t) && a + s == b + t
    ensures a == b && s == t
  {
    if a == [] || b == [] {
      Head(a, s);
      Head(b, t);
    } else {
      assert a[0] == (a + s)[0] == (b + t)[0] == b[0];
      assert (a + s)[1..] == a[1..] + s && (b + t)[1..] == b[1..] + t;
      NumberCode(a[1..], b[1..], s, t);
      assert a == [a[0]] + a[1..] && b == [b[0]] + b[1..];
    }
  }

  lemma {:induction false} PrintCode(a: Json, b: Json, s: string, t: string)
    requires Ends(s) && Ends(t) && Print(a) + s == Print(b) + t
    ensures a == b && s == t
    decreases a
  {
    SameKind(a, b, s, t);
    match a {
      case Null =>
        SameRest(Print(a), s, t);
      case Bool(x) =>
        SameRest(Print(a), s, t);
      case Number(x) =>
        NumberCode(x, b.digits, s, t);
      case Text(x) =>
        QuoteCode(x, b.text, s, t);
      case Array(x) =>
        DropFirst('[', PrintItems(x), s);
        DropFirst('[', PrintItems(b.items), t);
        ItemsCode(x, b.items, s, t);
      case Object(x) =>
        DropFirst('{', PrintMembers(x), s);
        DropFirst('{', PrintMembers(b.members), t);
        MembersCode(x, b.members, s, t);
    }
  }

  lemma SameKind(a: Json, b: Json, s: string, t: string)
    requires Print(a) + s == Print(b) + t
    ensures match a {
              case Null => b.Null?
              case Bool(x) => b == Bool(x)
              case Number(_) => b.Number?
              case Text(_) => b.Text?
              case Array(_) => b.Array?
              case Object(_) => b.Object?
            }
  {
    FirstChar(a);
    FirstChar(b);
    assert (Print(a) + s)[0] == Print(a)[0] && (Print(b) + t)[0] == Print(b)[0];
  }

  lemma SameRest(u: string, s: string, t: string)
    requires u + s == u + t
    ensures s == t
  {
    assert s == (u + s)[|u|..] && t == (u + t)[|u|..];
  }

  lemma DropFirst(c: char, u: string, s: string)
    ensures ([c] + u + s)[1..] == u + s
  {
  }

  lemma RestCode(close: char, more: bool, tail: string, s: string, more': bool, tail': string, s': string)
    requires close != ','
    requires Rest(close, more, tail) + s == Rest(close, more', tail') + s'
    ensures more == more'
    ensures if more then tail + s == tail' + s' else s == s'
  {
    RestShape(close, more, tail, s);
    RestShape(close, more', tail', s');
  }

  lemma RestShape(close: char, more: bool, tail: string, s: string)
    ensures var u := Rest(close, more, tail) + s;
            u != [] && u[0] == (if more then ',' else close) && u[1..] == (if more then tail + s else s)
  {
    if more { DropFirst(',', tail, s); }
  }

  lemma ItemsStep(a: seq<Json>, s: string)
    requires a != []
    ensures PrintItems(a) + s == Print(a[0]) + (Rest(']', |a| > 1, PrintItems(a[1..])) + s)
    ensures PrintItems(a) + s != [] && (PrintItems(a) + s)[0] != ']'
  {
    FirstChar(a[0]);
    Head(Print(a[0]), Rest(']', |a| > 1, PrintItems(a[1..])) + s);
  }

  lemma {:induction false} ItemsCode(a: seq<Json>, b: seq<Json>, s: string, t: string)
    requires PrintItems(a) + s == PrintItems(b) + t
    ensures a == b && s == t
    decreases a
  {
    Head("]", s);
    Head("]", t);
    if a == [] || b == [] {
      if a != [] { ItemsStep(a, s); }
      if b != [] { ItemsStep(b, t); }
      SameRest("]", s, t);
    } else {
      ItemsStep(a, s);
      ItemsStep(b, t);
      ItemsRest(a, b, s, t);
    }
  }

  lemma ItemsRest(a: seq<Json>, b: seq<Json>, s: string, t: string)
    requires a != [] && b != []
    requires Print(a[0]) + (Rest(']', |a| > 1, PrintItems(a[1..])) + s)
          == Print(b[0]) + (Rest(']', |b| > 1, PrintItems(b[1..])) + t)
    ensures a == b && s == t
    decreases a, 0
  {
    var ta, tb := PrintItems(a[1..]), PrintItems(b[1..]);
    PrintCode(a[0], b[0], Rest(']', |a| > 1, ta) + s, Rest(']', |b| > 1, tb) + t);
    RestCode(']', |a| > 1, ta, s, |b| > 1, tb, t);
    if |a| > 1 { ItemsCode(a[1..], b[1..], s, t); }
    assert a == [a[0]] + a[1..] && b == [b[0]] + b[1..];
  }

  lemma MembersStep(a: seq<Member>, s: string)
    requires a != []
    ensures PrintMembers(a) + s
         == Quote(a[0].key) + (":" + (Print(a[0].value) + (Rest('}', |a| > 1, PrintMembers(a[1..])) + s)))
    ensures PrintMembers(a) + s != [] && (PrintMembers(a) + s)[0] == '\"'
  {
    var k, v := Quote(a[0].key), Print(a[0].value);
    var r := Rest('}', |a| > 1, PrintMembers(a[1..]));
    assert PrintMembers(a) == k + ":" + v + r;
    Regroup(k, v, r, s);
  }

  lemma Regroup(k: string, v: string, r: string, s: string)
    ensures k + ":" + v + r + s == k + (":" + (v + (r + s)))
    ensures k != [] ==> (k + ":" + v + r + s)[0] == k[0]
  {
  }

  lemma {:induction false} MembersCode(a: seq<Member>, b: seq<Member>, s: string, t: string)
    requires PrintMembers(a) + s == PrintMembers(b) + t
    ensures a == b && s == t
    decreases a
  {
    Head("}", s);
    Head("}", t);
    if a == [] || b == [] {
      if a != [] { MembersStep(a, s); }
      if b != [] { MembersStep(b, t); }
      SameRest("}", s, t);
    } else {
      MembersStep(a, s);
      MembersStep(b, t);
      var ta, tb := PrintMembers(a[1..]), PrintMembers(b[1..]);
      var ra, rb := Rest('}', |a| > 1, ta) + s, Rest('}', |b| > 1, tb) + t;
      QuoteCode(a[0].key, b[0].key, ":" + (Print(a[0].value) + ra), ":" + (Print(b[0].value) + rb));
      SameRest(":", Print(a[0].value) + ra, Print(b[0].value) + rb);
      MemberRest(a, b, s, t);
    }
  }

  lemma MemberRest(a: seq<Member>, b: seq<Member>, s: string, t: string)
    requires a != [] && b != [] && a[0].key == b[0].key
    requires Print(a[0].value) + (Rest('}', |a| > 1, PrintMembers(a[1..])) + s)
          == Print(b[0].value) + (Rest('}', |b| > 1, PrintMembers(b[1..])) + t)
    ensures a == b && s == t
    decreases a, 0
  {
    var ta, tb := PrintMembers(a[1..]), PrintMembers(b[1..]);
    PrintCode(a[0].value, b[0].value, Rest('}', |a| > 1, ta) + s, Rest('}', |b| > 1, tb) + t);
    RestCode('}', |a| > 1, ta, s, |b| > 1, tb, t);
    if |a| > 1 { MembersCode(a[1..], b[1..], s, t); }
    assert a == [a[0]] + a[1..] && b == [b[0]] + b[1..];
  }

  /** Two values with the same text are the same value. */
  lemma PrintInjective(a: Json, b: Json)
    requires Print(a) == Print(b)
    ensures a == b
  {
    assert Print(a) + "" == Print(b) + "";
    PrintCode(a, b, "", "");
  }

  // ---- One line, and for an object a closing brace ----

  lemma {:induction false} EscapeAllOneLine(s: string)
    ensures '\n' !in EscapeAll(s)
  {
    if s != [] {
      EscapeShape(s[0]);
      EscapeAllOneLine(s[1..]);
    }
  }

  lemma {:induction false} PrintOneLine(j: Json)
    ensures '\n' !in Print(j)
    decreases j
  {
    match j {
      case Null =>
      case Bool(_) =>
      case Number(text) =>
      case Text(text) => EscapeAllOneLine(text);
      case Array(items) => ItemsOneLine(items);
      case Object(members) => MembersOneLine(members);
    }
  }

  lemma {:induction false} ItemsOneLine(items: seq<Json>)
    ensures '\n' !in PrintItems(items)
    decreases items
  {
    if items != [] {
      PrintOneLine(items[0]);
      ItemsOneLine(items[1..]);
    }
  }

  lemma {:induction false} MembersOneLine(members: seq<Member>)
    ensures '\n' !in PrintMembers(members)
    ensures PrintMembers(members) != []
    ensures PrintMembers(members)[|PrintMembers(members)| - 1] == '}'
    decreases members
  {
    if members != [] {
      EscapeAllOneLine(members[0].key);
      PrintOneLine(members[0].value);
      MembersOneLine(members[1..]);
    }
  }
}
