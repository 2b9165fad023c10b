/**
 * Colour and label lookups: the `languageColors` table with its case-insensitive
 * lookup (`colorForLanguage`), the six-colour fallback palette indexed by rank
 * position, and `initialForLanguage`.
 */
module Colors {
  import opened Text

  /** `languageColors`, keyed by lower-case language name. */
  const LanguageColors: map<string, string> := map[
    "go"         := "#00ADD8",
    "python"     := "#3572A5",
    "javascript" := "#f1e05a",
    "typescript" := "#3178c6",
    "java"       := "#b07219",
    "php"        := "#4F5D95",
    "ruby"       := "#701516",
    "c"          := "#555555",
    "c++"        := "#f34b7d",
    "c#"         := "#178600",
    "swift"      := "#F05138",
    "kotlin"     := "#A97BFF",
    "rust"       := "#dea584",
    "scala"      := "#c22d40",
    "shell"      := "#89e051",
    "html"       := "#e34c26",
    "css"        := "#563d7c",
    "vue"        := "#41b883",
    "dart"       := "#00B4AB",
    "lua"        := "#000080",
    "r"          := "#198CE7",
    "matlab"     := "#e16737",
    "makefile"   := "#427819",
    "hcl"        := "#844FBA",
    "dockerfile" := "#384d54"
  ]

  /** The fallback palette `colors` of `writeSVG`. */
  const Palette: seq<string> := ["#f2c94c", "#2d9cdb", "#27ae60", "#bb6bd9", "#56ccf2", "#eb5757"]

  predicate IsHexDigit(c: char) {
    ('0' <= c <= '9') || ('a' <= c <= 'f') || ('A' <= c <= 'F')
  }

  /** A `#rrggbb` colour. */
  predicate IsHexColor(s: string) {
    |s| == 7 && s[0] == '#' && forall i :: 1 <= i < 7 ==> IsHexDigit(s[i])
  }

  /** Every table and palette entry is a `#rrggbb` colour. */
  lemma ColorsWellFormed()
    ensures forall k :: k in LanguageColors ==> IsHexColor(LanguageColors[k])
    ensures forall i :: 0 <= i < |Palette| ==> IsHexColor(Palette[i])
  {
    HexColorLiteral("#00ADD8");
    HexColorLiteral("#3572A5");
    HexColorLiteral("#f1e05a");
    HexColorLiteral("#3178c6");
    HexColorLiteral("#b07219");
    HexColorLiteral("#4F5D95");
    HexColorLiteral("#701516");
    HexColorLiteral("#555555");
    HexColorLiteral("#f34b7d");
    HexColorLiteral("#178600");
    HexColorLiteral("#F05138");
    HexColorLiteral("#A97BFF");
    HexColorLiteral("#dea584");
    HexColorLiteral("#c22d40");
    HexColorLiteral("#89e051");
    HexColorLiteral("#e34c26");
    HexColorLiteral("#563d7c");
    HexColorLiteral("#41b883");
    HexColorLiteral("#00B4AB");
    HexColorLiteral("#000080");
    HexColorLiteral("#198CE7");
    HexColorLiteral("#e16737");
    HexColorLiteral("#427819");
    HexColorLiteral("#844FBA");
    HexColorLiteral("#384d54");
    HexColorLiteral("#f2c94c");
    HexColorLiteral("#2d9cdb");
    HexColorLiteral("#27ae60");
    HexColorLiteral("#bb6bd9");
    HexColorLiteral("#56ccf2");
    HexColorLiteral("#eb5757");
  }

  lemma HexColorLiteral(s: string)
    requires |s| == 7 && s[0] == '#'
    requires IsHexDigit(s[1]) && IsHexDigit(s[2]) && IsHexDigit(s[3])
    requires IsHexDigit(s[4]) && IsHexDigit(s[5]) && IsHexDigit(s[6])
    ensures IsHexColor(s)
  {
  }

  /** The table is keyed by lower-case names, so every entry can be looked up. */
  lemma TableKeysLowerCase()
    ensures forall k :: k in LanguageColors ==> Lower(k) == k
  {
  }

  /**
   * `colorForLanguage`: the table colour of the lower-cased name when there is
   * one, the fallback otherwise.
   */
  function ColorForLanguage(lang: string, fallback: string): (color: string)
    ensures color in LanguageColors.Values || color == fallback
    ensures Lower(lang) !in LanguageColors ==> color == fallback
    ensures IsHexColor(fallback) ==> IsHexColor(color)
  {
    ColorsWellFormed();
    if Lower(lang) in LanguageColors then LanguageColors[Lower(lang)] else fallback
  }

  /** The lookup ignores ASCII case. */
  lemma ColorIgnoresCase(a: string, b: string, fallback: string)
    requires Lower(a) == Lower(b)
    ensures ColorForLanguage(a, fallback) == ColorForLanguage(b, fallback)
  {
  }

  /** A name whose lower-casing is a table key gets that key's colour, whatever its case. */
  lemma ColorFromTable(lang: string, fallback: string)
    requires Lower(lang) in LanguageColors
    ensures ColorForLanguage(lang, fallback) == LanguageColors[Lower(lang)]
  {
  }

  /**
   * The colour of the entry at rank position `i`: table first, then the
   * palette cyclically by position (`colors[i%len(colors)]`).
   */
  function EntryColor(lang: string, i: nat): (color: string)
    ensures IsHexColor(color)
    ensures Lower(lang) !in LanguageColors ==> color == Palette[i % 6]
  {
    ColorsWellFormed();
    ColorForLanguage(lang, Palette[i % |Palette|])
  }

  /** Unknown languages cycle through the palette with period six. */
  lemma FallbackCycles(lang: string, i: nat)
    requires Lower(lang) !in LanguageColors
    ensures EntryColor(lang, i + 6) == EntryColor(lang, i)
    ensures i < 6 && i + 1 < 6 ==> EntryColor(lang, i) != EntryColor(lang, i + 1)
  {
  }

  predicate IsAsciiAlnum(c: char) {
    ('A' <= c <= 'Z') || ('a' <= c <= 'z') || ('0' <= c <= '9')
  }

  function UpperChar(c: char): char {
    if 'a' <= c <= 'z' then (c as int - 'a' as int + 'A' as int) as char else c
  }

  /**
   * `initialForLanguage`: the first ASCII letter or digit, upper-cased, as a
   * one-character string; "?" when there is none.
   */
  function InitialForLanguage(lang: string): (initial: string)
    ensures |initial| == 1
    ensures initial == "?" <==> forall i :: 0 <= i < |lang| ==> !IsAsciiAlnum(lang[i])
    ensures initial != "?" ==>
      exists i :: 0 <= i < |lang| && IsAsciiAlnum(lang[i]) && initial[0] == UpperChar(lang[i])
        && forall j :: 0 <= j < i ==> !IsAsciiAlnum(lang[j])
    ensures initial != "?" ==> ('A' <= initial[0] <= 'Z') || ('0' <= initial[0] <= '9')
  {
    if |lang| == 0 then "?"
    else if IsAsciiAlnum(lang[0]) then [UpperChar(lang[0])]
    else
      var rest := InitialForLanguage(lang[1..]);
      InitialSkipsHead(lang, rest);
      rest
  }

  /** Skipping a leading character that is not a letter or digit keeps the witness valid. */
  lemma InitialSkipsHead(lang: string, rest: string)
    requires |lang| > 0 && !IsAsciiAlnum(lang[0]) && |rest| == 1
    requires rest == "?" <==> forall i :: 0 <= i < |lang| - 1 ==> !IsAsciiAlnum(lang[1..][i])
    requires rest != "?" ==>
      exists i :: 0 <= i < |lang| - 1 && IsAsciiAlnum(lang[1..][i]) && rest[0] == UpperChar(lang[1..][i])
        && forall j :: 0 <= j < i ==> !IsAsciiAlnum(lang[1..][j])
    ensures rest == "?" <==> forall i :: 0 <= i < |lang| ==> !IsAsciiAlnum(lang[i])
    ensures rest != "?" ==>
      exists i :: 0 <= i < |lang| && IsAsciiAlnum(lang[i]) && rest[0] == UpperChar(lang[i])
        && forall j :: 0 <= j < i ==> !IsAsciiAlnum(lang[j])
  {
    assert forall i :: 0 <= i < |lang| - 1 ==> lang[1..][i] == lang[i + 1];
    if rest != "?" {
      var i :| 0 <= i < |lang| - 1 && IsAsciiAlnum(lang[1..][i]) && rest[0] == UpperChar(lang[1..][i])
        && forall j :: 0 <= j < i ==> !IsAsciiAlnum(lang[1..][j]);
      assert IsAsciiAlnum(lang[i + 1]) && forall j :: 0 <= j < i + 1 ==> !IsAsciiAlnum(lang[j]);
    } else {
      forall i | 0 <= i < |lang|
        ensures !IsAsciiAlnum(lang[i])
      {
        if i > 0 {
          assert lang[i] == lang[1..][i - 1];
        }
      }
    }
  }
}
