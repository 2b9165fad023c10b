/**
 * The configuration overlay (`mergeConfig`): values from the config file,
 * overwritten field by field by the command-line flags that were given, then
 * two defaults. Also `splitCSV`, which turns the `-exclude` flag into terms.
 */
module Config {
  import opened Wrappers
  import opened Text

  /** A flag value and whether it was given on the command line (the `set` field of the source). */
  datatype StringFlag = StringFlag(val: string, given: bool)
  datatype BoolFlag = BoolFlag(val: bool, given: bool)
  datatype IntFlag = IntFlag(val: int, given: bool)

  /** The flags `mergeConfig` receives, one field per parameter. */
  datatype Flags = Flags(
    username: StringFlag,
    token: StringFlag,
    output: StringFlag,
    includeForks: BoolFlag,
    includeArchived: BoolFlag,
    useOrg: BoolFlag,
    showOther: BoolFlag,
    exclude: StringFlag,
    top: IntFlag)

  /** `config`; the `*bool` of `ShowOther` is an `Option`. */
  datatype Config = Config(
    username: string,
    token: string,
    output: string,
    includeForks: bool,
    includeArchived: bool,
    org: bool,
    showOther: Option<bool>,
    exclude: seq<string>,
    top: int)

  const DefaultOutput: string := "lang-rank.svg"

  /** No flag given. */
  const NoFlags: Flags := Flags(
    StringFlag("", false), StringFlag("", false), StringFlag("", false),
    BoolFlag(false, false), BoolFlag(false, false), BoolFlag(false, false), BoolFlag(false, false),
    StringFlag("", false), IntFlag(0, false))

  /** The trimmed, non-empty pieces, in order (the loop of `splitCSV`). */
  function NonEmptyTrimmed(pieces: seq<string>): (out: seq<string>)
    ensures |out| <= |pieces|
    ensures forall i :: 0 <= i < |out| ==> out[i] != "" && IsTrimmed(out[i])
    ensures (forall j :: 0 <= j < |pieces| ==> ',' !in pieces[j]) ==> forall i :: 0 <= i < |out| ==> ',' !in out[i]
  {
    if |pieces| == 0 then []
    else
      var rest := NonEmptyTrimmed(pieces[1..]);
      var t := TrimSpace(pieces[0]);
      if t == "" then rest else [t] + rest
  }

  /**
   * `splitCSV`: nothing for a blank value, otherwise the comma-separated
   * pieces, trimmed, with the empty ones dropped.
   */
  function SplitCsv(value: string): (terms: seq<string>)
    ensures AllSpace(value) ==> terms == []
    ensures forall i :: 0 <= i < |terms| ==> terms[i] != "" && IsTrimmed(terms[i]) && ',' !in terms[i]
  {
    if TrimSpace(value) == "" then []
    else
      NonEmptyTrimmed(Split(value, ','))
  }

  /** Clean terms joined with commas split back into the same terms. */
  lemma SplitCsvJoin(terms: seq<string>)
    requires forall i :: 0 <= i < |terms| ==> terms[i] != "" && IsTrimmed(terms[i]) && ',' !in terms[i]
    ensures SplitCsv(Join(terms, ",")) == terms
  {
    if |terms| > 0 {
      var value := Join(terms, ",");
      SplitJoin(terms, ',');
      JoinNotBlank(terms);
      NonEmptyTrimmedOfClean(terms);
    }
  }

  /** One piece contributes its trimming, unless that is empty. */
  lemma NonEmptyTrimmedSingle(p: string)
    ensures NonEmptyTrimmed([p]) == if TrimSpace(p) == "" then [] else [TrimSpace(p)]
  {
    assert [p][1..] == [];
  }

  /** Filtering distributes over concatenation, so the pieces keep their order. */
  lemma {:induction false} NonEmptyTrimmedConcat(a: seq<string>, b: seq<string>)
    ensures NonEmptyTrimmed(a + b) == NonEmptyTrimmed(a) + NonEmptyTrimmed(b)
  {
    if |a| == 0 {
      assert a + b == b;
    } else {
      assert (a + b)[1..] == a[1..] + b;
      assert (a + b)[0] == a[0];
      NonEmptyTrimmedConcat(a[1..], b);
    }
  }

  /** `t` is the non-empty trimming of one of the pieces. */
  predicate TrimmedPiece(pieces: seq<string>, t: string) {
    exists i :: 0 <= i < |pieces| && t == TrimSpace(pieces[i]) && t != ""
  }

  /** The kept terms are exactly the non-empty trimmings of the pieces. */
  lemma {:induction false} NonEmptyTrimmedMembers(pieces: seq<string>, t: string)
    ensures t in NonEmptyTrimmed(pieces) <==> TrimmedPiece(pieces, t)
  {
    if |pieces| > 0 {
      NonEmptyTrimmedMembers(pieces[1..], t);
      if exists i :: 0 <= i < |pieces[1..]| && t == TrimSpace(pieces[1..][i]) && t != "" {
        var i :| 0 <= i < |pieces[1..]| && t == TrimSpace(pieces[1..][i]) && t != "";
        assert pieces[i + 1] == pieces[1..][i];
      }
      if exists i :: 0 <= i < |pieces| && t == TrimSpace(pieces[i]) && t != "" {
        var i :| 0 <= i < |pieces| && t == TrimSpace(pieces[i]) && t != "";
        if i > 0 {
          assert pieces[1..][i - 1] == pieces[i];
        }
      }
    }
  }

  /**
   * The terms of `splitCSV` are exactly the non-empty trimmings of the
   * comma-separated pieces; a blank value has a single blank piece, so it has
   * no terms either.
   */
  lemma SplitCsvTerms(value: string, t: string)
    ensures t in SplitCsv(value) <==> TrimmedPiece(Split(value, ','), t)
  {
    var pieces := Split(value, ',');
    NonEmptyTrimmedMembers(pieces, t);
    if TrimSpace(value) == "" {
      assert AllSpace(value);
      assert !IsSpace(',');
      SplitNoSeparator(value, ',');
      assert pieces == [value];
      assert forall i :: 0 <= i < |pieces| ==> TrimSpace(pieces[i]) == "";
      assert SplitCsv(value) == [];
    }
  }

  /** The usual command line `-exclude "HTML, CSS"`: the space after the comma is trimmed away. */
  lemma SplitCsvExample()
    ensures SplitCsv("HTML, CSS") == ["HTML", "CSS"]
  {
    var v := "HTML, CSS";
    assert !IsSpace(v[0]);
    SplitCsvOfNonBlank(v);
    ExampleSplit();
    ExampleTrim();
    NonEmptyTrimmedSingle("HTML");
    NonEmptyTrimmedSingle(" CSS");
    NonEmptyTrimmedConcat(["HTML"], [" CSS"]);
    assert Split(v, ',') == ["HTML"] + [" CSS"];
  }

  /** A value that is not blank is split, trimmed and filtered. */
  lemma SplitCsvOfNonBlank(v: string)
    requires |v| > 0 && !IsSpace(v[0])
    ensures SplitCsv(v) == NonEmptyTrimmed(Split(v, ','))
  {
    assert !AllSpace(v);
  }

  lemma ExampleSplit()
    ensures Split("HTML, CSS", ',') == ["HTML", " CSS"]
  {
    assert "HTML, CSS" == "HTML" + [','] + " CSS";
    SplitAfterPiece("HTML", ',', " CSS");
    SplitNoSeparator(" CSS", ',');
  }

  lemma ExampleTrim()
    ensures TrimSpace("HTML") == "HTML" && TrimSpace(" CSS") == "CSS"
  {
    TrimSpaceOfTrimmed("HTML");
    assert " CSS"[1..] == "CSS";
    TrimSpaceOfTrimmed("CSS");
  }

  /** Clean terms survive trimming and filtering unchanged. */
  lemma {:induction false} NonEmptyTrimmedOfClean(terms: seq<string>)
    requires forall i :: 0 <= i < |terms| ==> terms[i] != "" && IsTrimmed(terms[i])
    ensures NonEmptyTrimmed(terms) == terms
  {
    if |terms| > 0 {
      NonEmptyTrimmedOfClean(terms[1..]);
      TrimSpaceOfTrimmed(terms[0]);
    }
  }

  /** Joining non-empty, trimmed terms gives a non-blank string. */
  lemma JoinNotBlank(terms: seq<string>)
    requires |terms| > 0
    requires terms[0] != "" && IsTrimmed(terms[0])
    ensures !AllSpace(Join(terms, ","))
  {
    var j := Join(terms, ",");
    assert j[0] == terms[0][0];
  }

  /** The flag overlay of `mergeConfig`: each given flag replaces the file's value. */
  function Overlay(cfg: Config, flags: Flags): Config
  {
    Config(
      username := if flags.username.given then flags.username.val else cfg.username,
      token := if flags.token.given then flags.token.val else cfg.token,
      output := if flags.output.given then flags.output.val else cfg.output,
      includeForks := if flags.includeForks.given then flags.includeForks.val else cfg.includeForks,
      includeArchived := if flags.includeArchived.given then flags.includeArchived.val else cfg.includeArchived,
      org := if flags.useOrg.given then flags.useOrg.val else cfg.org,
      showOther := if flags.showOther.given then Some(flags.showOther.val) else cfg.showOther,
      exclude := if flags.exclude.given then SplitCsv(flags.exclude.val) else cfg.exclude,
      top := if flags.top.given then flags.top.val else cfg.top)
  }

  /** The two defaults `mergeConfig` applies after the overlay; nothing else changes. */
  function ApplyDefaults(c: Config): (d: Config)
    ensures d.output == if c.output == "" then DefaultOutput else c.output
    ensures d.showOther == if c.showOther.None? then Some(true) else c.showOther
    ensures d.(output := c.output, showOther := c.showOther) == c
  {
    var c := if c.output == "" then c.(output := DefaultOutput) else c;
    if c.showOther.None? then c.(showOther := Some(true)) else c
  }

  /**
   * `mergeConfig`: every field is the flag's value when the flag was given and
   * the file's value otherwise (`-exclude` goes through `splitCSV`); then an
   * empty output path becomes "lang-rank.svg" and an absent show-other
   * setting becomes true, so the dereference of `ShowOther` in `main` is safe.
   */
  function MergeConfig(cfg: Config, flags: Flags): (merged: Config)
    ensures merged.username == if flags.username.given then flags.username.val else cfg.username
    ensures merged.token == if flags.token.given then flags.token.val else cfg.token
    ensures merged.output == (
      var o := if flags.output.given then flags.output.val else cfg.output;
      if o == "" then DefaultOutput else o)
    ensures merged.includeForks == if flags.includeForks.given then flags.includeForks.val else cfg.includeForks
    ensures merged.includeArchived == if flags.includeArchived.given then flags.includeArchived.val else cfg.includeArchived
    ensures merged.org == if flags.useOrg.given then flags.useOrg.val else cfg.org
    ensures merged.showOther == (
      if flags.showOther.given then Some(flags.showOther.val)
      else if cfg.showOther.Some? then cfg.showOther else Some(true))
    ensures merged.exclude == if flags.exclude.given then SplitCsv(flags.exclude.val) else cfg.exclude
    ensures merged.top == if flags.top.given then flags.top.val else cfg.top
    ensures merged.output != "" && merged.showOther.Some?
  {
    ApplyDefaults(Overlay(cfg, flags))
  }

  /** Applying the same flags twice gives what applying them once gives. */
  lemma MergeIdempotent(cfg: Config, flags: Flags)
    ensures MergeConfig(MergeConfig(cfg, flags), flags) == MergeConfig(cfg, flags)
  {
  }

  /** With no flag given, the file's values stand, with only the two defaults filled in. */
  lemma MergeWithoutFlags(cfg: Config)
    ensures var merged := MergeConfig(cfg, NoFlags);
      && merged.(output := cfg.output, showOther := cfg.showOther) == cfg
      && (cfg.output != "" ==> merged.output == cfg.output)
      && (cfg.showOther.Some? ==> merged.showOther == cfg.showOther)
  {
  }

  /** When every flag is given, the file's values play no part. */
  lemma MergeAllFlagsSet(c1: Config, c2: Config, flags: Flags)
    requires flags.username.given && flags.token.given && flags.output.given
    requires flags.includeForks.given && flags.includeArchived.given && flags.useOrg.given
    requires flags.showOther.given && flags.exclude.given && flags.top.given
    ensures MergeConfig(c1, flags) == MergeConfig(c2, flags)
  {
  }
}
