/**
 * `escapeText`: a single left-to-right pass that replaces each of the five
 * XML-special characters by its entity and copies every other character.
 * Replacements are never rescanned.
 */
module Escape {

  /** The five characters the replacer rewrites. */
  predicate IsSpecial(c: char) {
    c == '&' || c == '<' || c == '>' || c == '"' || c == '\''
  }

  /** The replacement of one character. */
  function EscapeChar(c: char): (e: string)
    ensures IsSpecial(c) <==> |e| > 1
    ensures !IsSpecial(c) ==> e == [c]
  {
    match c
    case '&' => "&amp;"
    case '<' => "&lt;"
    case '>' => "&gt;"
    case '"' => "&quot;"
    case '\'' => "&apos;"
    case _ => [c]
  }

  predicate StartsWith(s: string, prefix: string) {
    |prefix| <= |s| && s[..|prefix|] == prefix
  }

  /** `s` begins with one of the five entities. */
  predicate StartsWithEntity(s: string) {
    StartsWith(s, "&amp;") || StartsWith(s, "&lt;") || StartsWith(s, "&gt;")
    || StartsWith(s, "&quot;") || StartsWith(s, "&apos;")
  }

  /** No raw `<`, `>`, `"` or `'`, and every `&` begins an entity. */
  predicate SafeText(s: string) {
    forall i :: 0 <= i < |s| ==>
      s[i] != '<' && s[i] != '>' && s[i] != '"' && s[i] != '\''
      && (s[i] == '&' ==> StartsWithEntity(s[i..]))
  }

  /** `escapeText`. */
  function EscapeText(s: string): (r: string)
    ensures |r| >= |s|
    ensures SafeText(r)
    ensures (forall i :: 0 <= i < |s| ==> !IsSpecial(s[i])) ==> r == s
  {
    if |s| == 0 then ""
    else
      var head := EscapeChar(s[0]);
      var rest := EscapeText(s[1..]);
      SafeConcat(head, rest);
      assert s == [s[0]] + s[1..];
      head + rest
  }

  /** A single replacement followed by safe text is safe text. */
  lemma SafeConcat(head: string, rest: string)
    requires exists c :: EscapeChar(c) == head
    requires SafeText(rest)
    ensures SafeText(head + rest)
  {
    var c :| EscapeChar(c) == head;
    var r := head + rest;
    forall i | 0 <= i < |r|
      ensures r[i] != '<' && r[i] != '>' && r[i] != '"' && r[i] != '\''
      ensures r[i] == '&' ==> StartsWithEntity(r[i..])
    {
      if i >= |head| {
        assert r[i] == rest[i - |head|];
        assert r[i..] == rest[i - |head|..];
      } else if i == 0 {
        assert r[..|head|] == head;
      }
    }
  }

  /** Decodes the five entities, left to right; any other character is copied. */
  function Unescape(s: string): string
    decreases |s|
  {
    if |s| == 0 then ""
    else if StartsWith(s, "&amp;") then "&" + Unescape(s[5..])
    else if StartsWith(s, "&lt;") then "<" + Unescape(s[4..])
    else if StartsWith(s, "&gt;") then ">" + Unescape(s[4..])
    else if StartsWith(s, "&quot;") then "\"" + Unescape(s[6..])
    else if StartsWith(s, "&apos;") then "'" + Unescape(s[6..])
    else [s[0]] + Unescape(s[1..])
  }

  /** Decoding undoes the replacement of the first character. */
  lemma UnescapeHead(c: char, rest: string)
    ensures Unescape(EscapeChar(c) + rest) == [c] + Unescape(rest)
  {
    var e := EscapeChar(c);
    var r := e + rest;
    assert r[..|e|] == e && r[|e|..] == rest;
    if c == '&' {
      assert StartsWith(r, "&amp;");
    } else if c == '<' {
      assert r[1] == 'l';
      assert !StartsWith(r, "&amp;") && StartsWith(r, "&lt;");
    } else if c == '>' {
      assert r[1] == 'g';
      assert !StartsWith(r, "&amp;") && !StartsWith(r, "&lt;") && StartsWith(r, "&gt;");
    } else if c == '"' {
      assert r[1] == 'q';
      assert !StartsWith(r, "&amp;") && !StartsWith(r, "&lt;") && !StartsWith(r, "&gt;");
      assert StartsWith(r, "&quot;");
    } else if c == '\'' {
      assert r[1] == 'a' && r[2] == 'p';
      assert !StartsWith(r, "&amp;") && !StartsWith(r, "&lt;") && !StartsWith(r, "&gt;");
      assert !StartsWith(r, "&quot;") && StartsWith(r, "&apos;");
    } else {
      assert r[0] == c;
      assert !StartsWith(r, "&amp;") && !StartsWith(r, "&lt;") && !StartsWith(r, "&gt;");
      assert !StartsWith(r, "&quot;") && !StartsWith(r, "&apos;");
    }
  }

  /** Decoding the entities recovers the original text. */
  lemma {:induction false} UnescapeEscape(s: string)
    ensures Unescape(EscapeText(s)) == s
    decreases |s|
  {
    if |s| > 0 {
      UnescapeEscape(s[1..]);
      UnescapeHead(s[0], EscapeText(s[1..]));
      assert s == [s[0]] + s[1..];
    }
  }

  /** Escaping is injective: different texts never render alike. */
  lemma EscapeInjective(a: string, b: string)
    requires EscapeText(a) == EscapeText(b)
    ensures a == b
  {
    UnescapeEscape(a);
    UnescapeEscape(b);
  }

  /** The tail of safe text after its first character or entity is safe text. */
  lemma SafeSuffix(s: string, n: nat)
    requires SafeText(s) && n <= |s|
    ensures SafeText(s[n..])
  {
    forall i | 0 <= i < |s[n..]|
      ensures s[n..][i] == s[n + i] && s[n..][i..] == s[n + i..]
    {
    }
  }

  /** Safe text starts with the replacement of the character it decodes to. */
  lemma DecodeHead(s: string) returns (c: char, n: nat)
    requires SafeText(s) && |s| > 0
    ensures 1 <= n <= |s| && EscapeChar(c) == s[..n]
    ensures Unescape(s) == [c] + Unescape(s[n..])
  {
    if StartsWith(s, "&amp;") {
      c, n := '&', 5;
    } else if StartsWith(s, "&lt;") {
      c, n := '<', 4;
    } else if StartsWith(s, "&gt;") {
      c, n := '>', 4;
    } else if StartsWith(s, "&quot;") {
      c, n := '"', 6;
    } else if StartsWith(s, "&apos;") {
      c, n := '\'', 6;
    } else {
      c, n := s[0], 1;
      assert s[0] != '&' && s[0] != '<' && s[0] != '>' && s[0] != '"' && s[0] != '\'';
      assert s[..1] == [s[0]];
    }
  }

  /** Every safe text is the escaping of its decoding. */
  lemma {:induction false} EscapeUnescape(s: string)
    requires SafeText(s)
    ensures EscapeText(Unescape(s)) == s
    decreases |s|
  {
    if |s| > 0 {
      var c, n := DecodeHead(s);
      SafeSuffix(s, n);
      EscapeUnescape(s[n..]);
      var u := [c] + Unescape(s[n..]);
      assert u[0] == c && u[1..] == Unescape(s[n..]);
      assert EscapeText(u) == EscapeChar(c) + EscapeText(u[1..]);
      assert s == s[..n] + s[n..];
    }
  }
}
