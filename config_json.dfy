/**
 * `JSON.stringify` of the vault configuration, as the drift check compares
 * it. A configuration that is not set is `null` in the store hook; `None`
 * stands for its text `null`, which is not the text of any configuration.
 *
 * Strings are escaped as JSON.stringify does: `"` and `\` get a backslash,
 * the control characters backspace, tab, line feed, form feed and carriage
 * return get their short escapes, the other characters below U+0020 become
 * `\u00xx` with lower-case hex digits, and every other character is written
 * as it is.
 *
 * The point of the module is `StringifyInjective`: two configurations
 * serialise to the same text only when they are equal, entry order
 * included.
 */
module ConfigJson {
  import opened Wrappers
  import opened VaultConfig

  const Quote: char := '"'
  const Backslash: char := '\\'
  const Colon: char := ':'
  const Comma: char := ','
  const OpenBrace: char := '{'
  const CloseBrace: char := '}'

  const DirectoryKey: string := "directory"
  const EnabledKey: string := "enabled"

  /** A lower-case hex digit. */
  function Hex(d: int): char
    requires 0 <= d < 16
  {
    if d < 10 then ('0' as int + d) as char else ('a' as int + d - 10) as char
  }

  function HexValue(h: char): int {
    if '0' <= h <= '9' then h as int - '0' as int
    else if 'a' <= h <= 'f' then h as int - 'a' as int + 10
    else 0
  }

  lemma HexRoundTrip(d: int)
    requires 0 <= d < 16
    ensures HexValue(Hex(d)) == d
  {
  }

  /** The letter of a short escape, for the characters that have one. */
  function ShortEscape(c: char): Option<char> {
    if c == Quote then Some(Quote)
    else if c == Backslash then Some(Backslash)
    else if c == 8 as char then Some('b')
    else if c == 9 as char then Some('t')
    else if c == 10 as char then Some('n')
    else if c == 12 as char then Some('f')
    else if c == 13 as char then Some('r')
    else None
  }

  /** How one character of a string value is written. */
  function EscapeChar(c: char): (r: string)
    ensures r != [] && r[0] != Quote
  {
    match ShortEscape(c)
    case Some(letter) => [Backslash, letter]
    case None =>
      if c as int < 0x20 then [Backslash, 'u', '0', '0', Hex(c as int / 16), Hex(c as int % 16)]
      else [c]
  }

  /** Reads one written character back: the character and how many were read. */
  function ReadChar(s: string): (char, nat) {
    if s == [] then (0 as char, 0)
    else if s[0] != Backslash then (s[0], 1)
    else if |s| < 2 then (0 as char, 0)
    else if s[1] == 'u' then
      if |s| < 6 then (0 as char, 0)
      else ((HexValue(s[4]) * 16 + HexValue(s[5])) as char, 6)
    else if s[1] == 'b' then (8 as char, 2)
    else if s[1] == 't' then (9 as char, 2)
    else if s[1] == 'n' then (10 as char, 2)
    else if s[1] == 'f' then (12 as char, 2)
    else if s[1] == 'r' then (13 as char, 2)
    else (s[1], 2)
  }

  /** Reading back what `EscapeChar` wrote gives the character, whatever follows. */
  lemma ReadEscapedChar(c: char, rest: string)
    ensures ReadChar(EscapeChar(c) + rest) == (c, |EscapeChar(c)|)
  {
    var e := EscapeChar(c);
    var s := e + rest;
    assert s[0] == e[0];
    if ShortEscape(c).None? && c as int < 0x20 {
      assert s[1] == 'u' && s[4] == Hex(c as int / 16) && s[5] == Hex(c as int % 16);
      HexRoundTrip(c as int / 16);
      HexRoundTrip(c as int % 16);
    } else if ShortEscape(c).Some? {
      assert s[1] == e[1];
    }
  }

  /** The written forms of characters form a prefix code. */
  lemma EscapeCharPrefix(a: char, b: char, u: string, v: string)
    requires EscapeChar(a) + u == EscapeChar(b) + v
    ensures a == b && u == v
  {
    ReadEscapedChar(a, u);
    ReadEscapedChar(b, v);
    assert u == (EscapeChar(a) + u)[|EscapeChar(a)|..];
    assert v == (EscapeChar(b) + v)[|EscapeChar(b)|..];
  }

  function EscapeString(s: string): string {
    if s == [] then [] else EscapeChar(s[0]) + EscapeString(s[1..])
  }

  /** A string value: the escaped characters between quotes. */
  function Str(s: string): (r: string)
    ensures r != [] && r[0] == Quote
  {
    [Quote] + (EscapeString(s) + [Quote])
  }

  /** Equal texts that begin with pieces of the same length begin with the same piece. */
  lemma SplitAt(p: string, u: string, q: string, v: string)
    requires p + u == q + v && |p| == |q|
    ensures p == q && u == v
  {
    assert p == (p + u)[..|p|] && q == (q + v)[..|q|];
    assert u == (p + u)[|p|..] && v == (q + v)[|q|..];
  }

  lemma Assoc(p: string, q: string, u: string)
    ensures (p + q) + u == p + (q + u)
  {
  }

  /** A non-empty escaped string does not begin with the closing quote. */
  lemma EscapedHead(t: string, v: string)
    ensures t != [] ==> (EscapeString(t) + v)[0] != Quote
  {
    if t != [] {
      var e := EscapeChar(t[0]);
      Assoc(e, EscapeString(t[1..]), v);
      assert (e + (EscapeString(t[1..]) + v))[0] == e[0];
    }
  }

  /** The closing quote ends a string value: what it encloses and what follows are determined. */
  lemma {:induction false} EscapedPrefix(s: string, t: string, u: string, v: string)
    requires EscapeString(s) + ([Quote] + u) == EscapeString(t) + ([Quote] + v)
    ensures s == t && u == v
    decreases |s|
  {
    EscapedHead(s, [Quote] + u);
    EscapedHead(t, [Quote] + v);
    if s == [] && t == [] {
      assert EscapeString(s) == [] && EscapeString(t) == [];
      assert [] + ([Quote] + u) == [Quote] + u && [] + ([Quote] + v) == [Quote] + v;
      SplitAt([Quote], u, [Quote], v);
    } else if s != [] && t != [] {
      var u' := EscapeString(s[1..]) + ([Quote] + u);
      var v' := EscapeString(t[1..]) + ([Quote] + v);
      Assoc(EscapeChar(s[0]), EscapeString(s[1..]), [Quote] + u);
      Assoc(EscapeChar(t[0]), EscapeString(t[1..]), [Quote] + v);
      EscapeCharPrefix(s[0], t[0], u', v');
      EscapedPrefix(s[1..], t[1..], u, v);
    }
  }

  lemma StrPrefix(s: string, t: string, u: string, v: string)
    requires Str(s) + u == Str(t) + v
    ensures s == t && u == v
  {
    Assoc([Quote], EscapeString(s) + [Quote], u);
    Assoc([Quote], EscapeString(t) + [Quote], v);
    SplitAt([Quote], (EscapeString(s) + [Quote]) + u, [Quote], (EscapeString(t) + [Quote]) + v);
    Assoc(EscapeString(s), [Quote], u);
    Assoc(EscapeString(t), [Quote], v);
    EscapedPrefix(s, t, u, v);
  }

  function Bool(b: bool): (r: string)
    ensures r != [] && r[0] == if b then 't' else 'f'
  {
    if b then "true" else "false"
  }

  lemma BoolPrefix(a: bool, b: bool, u: string, v: string)
    requires Bool(a) + u == Bool(b) + v
    ensures a == b && u == v
  {
    assert (Bool(a) + u)[0] == Bool(a)[0];
    assert (Bool(b) + v)[0] == Bool(b)[0];
    SplitAt(Bool(a), u, Bool(b), v);
  }

  /** `"directory":` and `"enabled":`, the keys written as string values followed by a colon. */
  const DirectoryField: string := "\"directory\":"
  const EnabledField: string := "\"enabled\":"

  lemma PlainChar(c: char)
    requires c as int >= 0x20 && c != Quote && c != Backslash
    ensures EscapeChar(c) == [c]
  {
    assert ShortEscape(c).None?;
  }

  /** Text with no quote, backslash or control character is written unchanged. */
  lemma {:induction false} PlainEscape(s: string)
    requires forall c :: c in s ==> c as int >= 0x20 && c != Quote && c != Backslash
    ensures EscapeString(s) == s
  {
    if s != [] {
      assert s[0] in s;
      assert forall c :: c in s[1..] ==> c in s;
      PlainChar(s[0]);
      PlainEscape(s[1..]);
      assert s == [s[0]] + s[1..];
    }
  }

  /** A plain text is written between quotes as it is. */
  lemma PlainStr(s: string)
    requires forall c :: c in s ==> c as int >= 0x20 && c != Quote && c != Backslash
    ensures Str(s) == [Quote] + s + [Quote]
  {
    PlainEscape(s);
  }

  /** A field is a plain key between quotes, then a colon. */
  lemma FieldOf(key: string, field: string)
    requires forall c :: c in key ==> 'a' <= c <= 'z'
    requires field == [Quote] + key + [Quote, Colon]
    ensures field == Str(key) + [Colon]
  {
    PlainStr(key);
  }

  lemma DirectoryFieldIsQuotedKey()
    ensures DirectoryField == Str(DirectoryKey) + [Colon]
  {
    assert DirectoryField == [Quote] + DirectoryKey + [Quote, Colon];
    FieldOf(DirectoryKey, DirectoryField);
  }

  lemma EnabledFieldIsQuotedKey()
    ensures EnabledField == Str(EnabledKey) + [Colon]
  {
    assert EnabledField == [Quote] + EnabledKey + [Quote, Colon];
    FieldOf(EnabledKey, EnabledField);
  }

  /** `"directory":"<d>",`, or nothing without a directory. */
  function DirectoryPart(d: Option<string>): string {
    if d.Some? then DirectoryField + (Str(d.value) + [Comma]) else []
  }

  /** `{"directory":"<d>","enabled":<b>}`, or `{"enabled":<b>}` without a directory. */
  function Value(s: Settings): (r: string)
    ensures r != [] && r[0] == OpenBrace
  {
    [OpenBrace] + (DirectoryPart(s.directory) + (EnabledField + (Bool(s.enabled) + [CloseBrace])))
  }

  /** After the key `enabled`: the flag and what follows are determined. */
  lemma EnabledPrefix(a: bool, b: bool, u: string, v: string)
    requires EnabledField + (Bool(a) + [CloseBrace]) + u == EnabledField + (Bool(b) + [CloseBrace]) + v
    ensures a == b && u == v
  {
    Assoc(EnabledField, Bool(a) + [CloseBrace], u);
    Assoc(EnabledField, Bool(b) + [CloseBrace], v);
    SplitAt(EnabledField, Bool(a) + [CloseBrace] + u, EnabledField, Bool(b) + [CloseBrace] + v);
    Assoc(Bool(a), [CloseBrace], u);
    Assoc(Bool(b), [CloseBrace], v);
    BoolPrefix(a, b, [CloseBrace] + u, [CloseBrace] + v);
    SplitAt([CloseBrace], u, [CloseBrace], v);
  }

  /** What follows the opening brace of a value. */
  lemma {:induction false} ValueBody(s: Settings, u: string) returns (body: string)
    ensures Value(s) + u == [OpenBrace] + body
    ensures s.directory.None? ==> body == EnabledField + (Bool(s.enabled) + [CloseBrace]) + u
    ensures s.directory.Some? ==>
              body == DirectoryField + (Str(s.directory.value) + ([Comma] + (EnabledField + (Bool(s.enabled) + [CloseBrace]) + u)))
  {
    var tail := EnabledField + (Bool(s.enabled) + [CloseBrace]);
    body := DirectoryPart(s.directory) + tail + u;
    Assoc([OpenBrace], DirectoryPart(s.directory) + tail, u);
    if s.directory.Some? {
      var d := s.directory.value;
      Assoc(DirectoryField, Str(d) + [Comma], tail);
      Assoc(DirectoryField + (Str(d) + [Comma]), tail, u);
      Assoc(DirectoryField, Str(d) + [Comma] + tail, u);
      Assoc(Str(d) + [Comma], tail, u);
      Assoc(Str(d), [Comma], tail + u);
    }
  }

  lemma ValuePrefix(a: Settings, b: Settings, u: string, v: string)
    requires Value(a) + u == Value(b) + v
    ensures a == b && u == v
  {
    var ba := ValueBody(a, u);
    var bb := ValueBody(b, v);
    SplitAt([OpenBrace], ba, [OpenBrace], bb);
    var ta := EnabledField + (Bool(a.enabled) + [CloseBrace]) + u;
    var tb := EnabledField + (Bool(b.enabled) + [CloseBrace]) + v;
    assert ba[1] == if a.directory.Some? then 'd' else 'e';
    assert bb[1] == if b.directory.Some? then 'd' else 'e';
    if a.directory.Some? && b.directory.Some? {
      var da, db := a.directory.value, b.directory.value;
      SplitAt(DirectoryField, Str(da) + ([Comma] + ta), DirectoryField, Str(db) + ([Comma] + tb));
      StrPrefix(da, db, [Comma] + ta, [Comma] + tb);
      SplitAt([Comma], ta, [Comma], tb);
      EnabledPrefix(a.enabled, b.enabled, u, v);
    } else if a.directory.None? && b.directory.None? {
      EnabledPrefix(a.enabled, b.enabled, u, v);
    }
  }

  /** `"<id>":<settings>`. */
  function Member(e: Entry): (r: string)
    ensures r != [] && r[0] == Quote
  {
    Str(e.id) + ([Colon] + Value(e.settings))
  }

  lemma MemberPrefix(a: Entry, b: Entry, u: string, v: string)
    requires Member(a) + u == Member(b) + v
    ensures a == b && u == v
  {
    Assoc(Str(a.id), [Colon] + Value(a.settings), u);
    Assoc(Str(b.id), [Colon] + Value(b.settings), v);
    StrPrefix(a.id, b.id, [Colon] + Value(a.settings) + u, [Colon] + Value(b.settings) + v);
    Assoc([Colon], Value(a.settings), u);
    Assoc([Colon], Value(b.settings), v);
    SplitAt([Colon], Value(a.settings) + u, [Colon], Value(b.settings) + v);
    ValuePrefix(a.settings, b.settings, u, v);
  }

  /** The members, separated by commas. */
  function Members(c: Config): string {
    if c == [] then []
    else if |c| == 1 then Member(c[0])
    else Member(c[0]) + ([Comma] + Members(c[1..]))
  }

  /** `JSON.stringify(configVaults)`: `None` stands for the text `null` of an unset configuration. */
  function Stringify(c: Option<Config>): Option<string> {
    if c.None? then None else Some([OpenBrace] + (Members(c.value) + [CloseBrace]))
  }

  /** The members, then the closing brace: what comes after the first member. */
  lemma {:induction false} MembersTail(c: Config) returns (tail: string)
    requires c != []
    ensures Members(c) + [CloseBrace] == Member(c[0]) + tail
    ensures |c| == 1 ==> tail == [CloseBrace]
    ensures |c| > 1 ==> tail == [Comma] + (Members(c[1..]) + [CloseBrace])
  {
    if |c| == 1 {
      tail := [CloseBrace];
    } else {
      tail := [Comma] + (Members(c[1..]) + [CloseBrace]);
      Assoc(Member(c[0]), [Comma] + Members(c[1..]), [CloseBrace]);
      Assoc([Comma], Members(c[1..]), [CloseBrace]);
    }
  }

  lemma SameHeadAndTail(c: Config, d: Config)
    requires c != [] && d != [] && c[0] == d[0] && c[1..] == d[1..]
    ensures c == d
  {
    assert c == [c[0]] + c[1..] && d == [d[0]] + d[1..];
  }

  lemma MembersHead(c: Config)
    ensures (Members(c) + [CloseBrace])[0] == if c == [] then CloseBrace else Quote
  {
    if c != [] {
      var tc := MembersTail(c);
      assert (Member(c[0]) + tc)[0] == Member(c[0])[0];
    }
  }

  lemma {:induction false} MembersPrefix(c: Config, d: Config)
    requires Members(c) + [CloseBrace] == Members(d) + [CloseBrace]
    ensures c == d
  {
    MembersHead(c);
    MembersHead(d);
    if c != [] && d != [] {
      var tc := MembersTail(c);
      var td := MembersTail(d);
      MemberPrefix(c[0], d[0], tc, td);
      assert tc[0] == (if |c| == 1 then CloseBrace else Comma);
      assert td[0] == (if |d| == 1 then CloseBrace else Comma);
      if |c| > 1 && |d| > 1 {
        SplitAt([Comma], Members(c[1..]) + [CloseBrace], [Comma], Members(d[1..]) + [CloseBrace]);
        MembersPrefix(c[1..], d[1..]);
        SameHeadAndTail(c, d);
      }
    }
  }

  /** Equal serialisations come only from equal configurations, entry order included. */
  lemma StringifyInjective(a: Option<Config>, b: Option<Config>)
    ensures Stringify(a) == Stringify(b) <==> a == b
  {
    if Stringify(a) == Stringify(b) && a.Some? {
      SplitAt([OpenBrace], Members(a.value) + [CloseBrace], [OpenBrace], Members(b.value) + [CloseBrace]);
      MembersPrefix(a.value, b.value);
    }
  }
}
