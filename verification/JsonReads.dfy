/** What printed JSON text looks like, and that its strings can be read back (RFC 8259). */
module JsonReads {
  import opened Options
  import opened Json

  /** The value of a hexadecimal digit, and of an escape's letter, as section 7 of RFC 8259 gives them. */
  function HexValue(c: char): int {
    if '0' <= c <= '9' then c as int - '0' as int
    else if 'a' <= c <= 'f' then c as int - 'a' as int + 10
    else 16
  }

  function Meant(letter: char): char {
    if letter == 'b' then 8 as char
    else if letter == 't' then 9 as char
    else if letter == 'n' then 10 as char
    else if letter == 'f' then 12 as char
    else if letter == 'r' then 13 as char
    else letter
  }

  /** Reads one character of a quoted string: itself, an escaped one, or one given by four digits. */
  function ReadChar(s: string): Option<(char, string)> {
    if s == "" || s[0] == '\"' || s[0] < ' ' then None
    else if s[0] != '\\' then Some((s[0], s[1..]))
    else if |s| < 2 then None
    else if s[1] == 'u' then
      if |s| < 6 || s[2] != '0' || s[3] != '0' || HexValue(s[4]) >= 8 || HexValue(s[5]) >= 16 then None
      else Some(((16 * HexValue(s[4]) + HexValue(s[5])) as char, s[6..]))
    else if s[1] in "\"\\/bfnrt" then Some((Meant(s[1]), s[2..]))
    else None
  }

  lemma HexReads(n: int)
    requires 0 <= n < 16
    ensures HexValue(HexDigit(n)) == n
  {
  }

  /** A reader of JSON strings gets back the character that was escaped, and stops where its escape ends. */
  lemma EscapeReads(c: char, rest: string)
    ensures ReadChar(Escape(c) + rest) == Some((c, rest))
  {
    var s, e := Escape(c) + rest, Escape(c);
    assert forall i | 0 <= i < |e| :: s[i] == e[i];
    assert s[|e|..] == rest;
    if c < ' ' && |e| == 6 {
      HexReads(c as int / 16);
      HexReads(c as int % 16);
      assert 16 * (c as int / 16) + c as int % 16 == c as int;
    }
  }

  /** No quotation mark, reverse solidus or control character. */
  predicate IsPlain(s: string) {
    forall i | 0 <= i < |s| :: s[i] >= ' ' && s[i] != '\"' && s[i] != '\\'
  }

  /** A plain text is printed as it is. */
  lemma {:induction false} PlainText(s: string)
    requires IsPlain(s)
    ensures EscapeAll(s) == s && Quote(s) == "\"" + s + "\""
  {
    if s != "" { PlainText(s[1..]); }
  }

  /** Words and numbers are printed bare, lists in brackets. */
  lemma PrintForms(digits: NumberText, text: string)
    ensures Print(Null) == "null" && Print(Bool(true)) == "true" && Print(Bool(false)) == "false"
    ensures Print(Number(digits)) == digits && Print(Text(text)) == Quote(text)
    ensures Print(Array([])) == "[]" && Print(Object([])) == "{}"
    ensures Print(Array([Number(digits), Text(text)])) == "[" + (digits + ("," + (Quote(text) + "]")))
  {
    var items := [Number(digits), Text(text)];
    assert items[1..] == [Text(text)] && [Text(text)][1..] == [];
    assert PrintItems([Text(text)]) == Quote(text) + "]";
    assert PrintItems(items) == Print(items[0]) + Rest(']', true, PrintItems([Text(text)]));
    assert "[" + "]" == "[]" && "{" + "}" == "{}";
  }

  lemma TwoTexts(key: string, text: string, key': string, text': string)
    ensures Print(Object([Member(key, Text(text)), Member(key', Text(text'))]))
         == "{" + (Quote(key) + ":" + Quote(text) + ("," + (Quote(key') + ":" + Quote(text') + "}")))
  {
    var m, n := Member(key, Text(text)), Member(key', Text(text'));
    var members := [m, n];
    assert members[1..] == [n] && [n][1..] == [];
    assert Print(m.value) == Quote(text) && Print(n.value) == Quote(text');
    assert PrintMembers([n]) == Quote(key') + ":" + Quote(text') + "}";
    assert PrintMembers(members) == Quote(key) + ":" + Print(m.value) + Rest('}', true, PrintMembers([n]));
    assert Print(Object(members)) == "{" + PrintMembers(members);
  }
}
