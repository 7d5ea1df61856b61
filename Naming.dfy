/** How the Domains plugin turns its configuration string and the image
    titles into column names, output file names and experiment metadata
    (src/main/java/ibios/domains/Domains.java). */
module Naming {
  import opened JavaLang

  /** The initial value of the `experiment` setting. */
  const DefaultExperiment: string := "experiment"

  /** The sub-directory, under the source file's directory, that receives
      every output. */
  const ProcessedDir: string := "processed/"

  // ---------------------------------------------------------------------
  // Column names

  /** `ColumnNames`: the experiment setting with all whitespace removed,
      split on commas. No name holds whitespace or a comma. */
  function ColumnNames(experiment: string): (names: seq<string>)
    ensures forall i, c :: 0 <= i < |names| && c in names[i] ==> !IsSpace(c) && c != ','
  {
    Split(StripSpaces(experiment), ',')
  }

  /** A setting without whitespace or commas is a single column. */
  lemma {:induction false} SingleColumn(experiment: string)
    requires NoSpace(experiment) && ',' !in experiment
    ensures ColumnNames(experiment) == [experiment]
  {
    StripSpacesNoop(experiment);
  }

  /** The default setting gives exactly one column, named "experiment". */
  lemma {:induction false} DefaultColumnNames()
    ensures ColumnNames(DefaultExperiment) == [DefaultExperiment]
  {
    var e := DefaultExperiment;
    assert e == ['e', 'x', 'p', 'e', 'r', 'i', 'm', 'e', 'n', 't'];
    SingleColumn(e);
  }

  /** Names free of whitespace and commas, written with commas between
      them, come back as written and in order. */
  lemma {:induction false} ColumnNamesRoundTrip(names: seq<string>)
    requires |names| >= 1
    requires forall i :: 0 <= i < |names| ==> NoSpace(names[i]) && ',' !in names[i]
    requires |names| == 1 || names[|names| - 1] != []
    ensures ColumnNames(Join(names, ',')) == names
  {
    var joined := Join(names, ',');
    JoinCharsFromPieces(names, ',');
    forall c | c in joined ensures !IsSpace(c) {
      if c != ',' {
        var p :| 0 <= p < |names| && c in names[p];
      }
    }
    StripSpacesNoop(joined);
    SplitJoin(names, ',');
  }

  /** A setting that reads as the names joined by commas once its
      whitespace is removed, wherever that whitespace stood, parses to
      exactly those names. */
  lemma {:induction false} ColumnNamesWithSpaces(experiment: string, names: seq<string>)
    requires |names| >= 1
    requires forall i :: 0 <= i < |names| ==> ',' !in names[i]
    requires |names| == 1 || names[|names| - 1] != []
    requires StripSpaces(experiment) == Join(names, ',')
    ensures ColumnNames(experiment) == names
  {
    SplitJoin(names, ',');
  }

  /** Stripping whitespace first changes nothing. */
  lemma {:induction false} ColumnNamesIgnoreSpaces(experiment: string)
    ensures ColumnNames(StripSpaces(experiment)) == ColumnNames(experiment)
  {
    StripSpacesNoop(StripSpaces(experiment));
  }

  // ---------------------------------------------------------------------
  // Output file names and paths

  /** `tokens[1]` of the whitespace-free title split on hyphens, the common
      first step of `FileName` and `ExperimentName`; an index fault when
      the title has no second token. */
  function SecondToken(title: string): (r: Result<string>)
    ensures r.Ok? <==> HasSecondToken(StripSpaces(title), '-')
    ensures r.Fail? ==> r.fault == IndexOutOfBounds
    ensures r.Ok? ==> '-' !in r.value && NoSpace(r.value)
  {
    var tokens := Split(StripSpaces(title), '-');
    SplitHasSecondToken(StripSpaces(title), '-');
    if |tokens| < 2 then Fail(IndexOutOfBounds) else Ok(tokens[1])
  }

  /** The second token is the text between the first and the second hyphen
      of the whitespace-free title, empty when they are adjacent (provided a
      non-hyphen follows later, as split drops trailing empty tokens). */
  lemma {:induction false} SecondTokenOf(title: string, a: string, b: string, tail: string)
    requires StripSpaces(title) == a + "-" + b + tail
    requires '-' !in a && '-' !in b
    requires tail == [] || tail[0] == '-'
    requires b != [] || exists j :: 0 <= j < |tail| && tail[j] != '-'
    ensures SecondToken(title) == Ok(b)
  {
    SplitSecondToken(a, b, tail, '-');
  }

  /** `FileName`: the trimmed second token, a hyphen, the suffix. The
      result ends with "-" + suffix, has no hyphen before that, and has no
      whitespace when the suffix has none. */
  function FileName(title: string, suffix: string): (r: Result<string>)
    ensures r.Ok? <==> HasSecondToken(StripSpaces(title), '-')
    ensures r.Fail? ==> r.fault == IndexOutOfBounds
    ensures r.Ok? ==> |r.value| > |suffix| && r.value[|r.value| - |suffix| - 1..] == "-" + suffix
    ensures r.Ok? ==> '-' !in r.value[..|r.value| - |suffix| - 1]
    ensures r.Ok? && NoSpace(suffix) ==> NoSpace(r.value)
  {
    match SecondToken(title)
    case Fail(f) => Fail(f)
    case Ok(token) =>
      var stem := Trim(token);
      TrimKeepsAbsent(token);
      HyphenJoined(stem, suffix);
      Ok(stem + "-" + suffix)
  }

  /** Trimming a token without hyphens or whitespace leaves none. */
  lemma {:induction false} TrimKeepsAbsent(token: string)
    requires '-' !in token && NoSpace(token)
    ensures '-' !in Trim(token) && NoSpace(Trim(token))
  {
  }

  /** "stem-suffix" with a hyphen-free stem ends with "-" + suffix, has no
      hyphen before it, and is whitespace-free when both parts are. */
  lemma {:induction false} HyphenJoined(stem: string, suffix: string)
    requires '-' !in stem
    ensures var n := stem + "-" + suffix;
      && |n| > |suffix| && n[|n| - |suffix| - 1..] == "-" + suffix
      && n[..|n| - |suffix| - 1] == stem
      && (NoSpace(stem) && NoSpace(suffix) ==> NoSpace(n))
  {
    var n := stem + "-" + suffix;
    assert n[..|stem|] == stem;
    assert n[|stem|..] == "-" + suffix;
  }

  /** For a title "a-b..." the file name is the trimmed `b` + "-" + suffix,
      and exactly b + "-" + suffix when `b` has no control characters at its
      ends; for "a--b" that is "-" + suffix. */
  lemma {:induction false} FileNameOf(title: string, suffix: string, a: string, b: string, tail: string)
    requires StripSpaces(title) == a + "-" + b + tail
    requires '-' !in a && '-' !in b
    requires tail == [] || tail[0] == '-'
    requires b != [] || exists j :: 0 <= j < |tail| && tail[j] != '-'
    ensures FileName(title, suffix) == Ok(Trim(b) + "-" + suffix)
    ensures b == [] || (!IsTrimmable(b[0]) && !IsTrimmable(b[|b| - 1])) ==> FileName(title, suffix) == Ok(b + "-" + suffix)
  {
    SecondTokenOf(title, a, b, tail);
    if b == [] || (!IsTrimmable(b[0]) && !IsTrimmable(b[|b| - 1])) {
      TrimNoop(b);
    }
  }

  /** Where `SaveImage` writes and `OpenStackImage` reads an image. */
  function ImagePath(dir: string, title: string, suffix: string): (r: Result<string>)
    ensures r.Ok? <==> HasSecondToken(StripSpaces(title), '-')
  {
    match FileName(title, suffix)
    case Fail(f) => Fail(f)
    case Ok(name) => Ok(dir + ProcessedDir + name + ".tif")
  }

  /** Where `DomainAnalysis` saves the results table. */
  function TablePath(dir: string, title: string): (r: Result<string>)
    ensures r.Ok? <==> HasSecondToken(StripSpaces(title), '-')
  {
    match FileName(title, "dat")
    case Fail(f) => Fail(f)
    case Ok(name) => Ok(dir + ProcessedDir + name + ".csv")
  }

  lemma {:induction false} SameAround(p: string, x: string, y: string, q: string)
    requires p + x + q == p + y + q
    ensures x == y
  {
    assert |x| == |y|;
    assert x == (p + x + q)[|p|..|p| + |x|];
    assert y == (p + y + q)[|p|..|p| + |y|];
  }

  /** Two titles lead to the same image path for a suffix exactly when
      their trimmed second tokens agree: `OpenStackImage(imp, "stack")`
      reopens the file `SaveImage(..., "stack")` wrote for any title with
      the same second hyphen token, and for no other. */
  lemma {:induction false} SamePathIffSameStem(dir: string, title1: string, title2: string, suffix: string)
    requires SecondToken(title1).Ok? && SecondToken(title2).Ok?
    ensures ImagePath(dir, title1, suffix) == ImagePath(dir, title2, suffix)
        <==> Trim(SecondToken(title1).value) == Trim(SecondToken(title2).value)
  {
    ImagePathOf(dir, title1, suffix);
    ImagePathOf(dir, title2, suffix);
    var stem1, stem2 := Trim(SecondToken(title1).value), Trim(SecondToken(title2).value);
    WrappedEqualIff(dir + ProcessedDir, stem1, stem2, "-", suffix, ".tif");
  }

  lemma {:induction false} WrappedEqualIff(p: string, x: string, y: string, h: string, m: string, q: string)
    ensures p + (x + h + m) + q == p + (y + h + m) + q <==> x == y
  {
    if p + (x + h + m) + q == p + (y + h + m) + q {
      SameAround(p, x + h + m, y + h + m, q);
      assert [] + x + (h + m) == x + h + m && [] + y + (h + m) == y + h + m;
      SameAround([], x, y, h + m);
    }
  }

  lemma {:induction false} ImagePathOf(dir: string, title: string, suffix: string)
    requires SecondToken(title).Ok?
    ensures ImagePath(dir, title, suffix) == Ok(dir + ProcessedDir + (Trim(SecondToken(title).value) + "-" + suffix) + ".tif")
  {
    FileNameValue(title, suffix);
    ImagePathOfName(dir, title, suffix);
  }

  lemma {:induction false} FileNameValue(title: string, suffix: string)
    requires SecondToken(title).Ok?
    ensures FileName(title, suffix) == Ok(Trim(SecondToken(title).value) + "-" + suffix)
  {
  }

  /** Images saved under different hyphen-free suffixes ("stack",
      "threshold", "mask", "outlines") never share a path, whatever the
      titles: one output cannot overwrite another of a different kind. */
  lemma {:induction false} DistinctSuffixesDistinctPaths(dir: string, title1: string, suffix1: string, title2: string, suffix2: string)
    requires suffix1 != suffix2 && '-' !in suffix1 && '-' !in suffix2
    ensures ImagePath(dir, title1, suffix1).Ok? && ImagePath(dir, title2, suffix2).Ok?
        ==> ImagePath(dir, title1, suffix1) != ImagePath(dir, title2, suffix2)
  {
    if ImagePath(dir, title1, suffix1).Ok? && ImagePath(dir, title2, suffix2).Ok? {
      var stem1, stem2 := Trim(SecondToken(title1).value), Trim(SecondToken(title2).value);
      FileNameValue(title1, suffix1);
      FileNameValue(title2, suffix2);
      ImagePathOfName(dir, title1, suffix1);
      ImagePathOfName(dir, title2, suffix2);
      if ImagePath(dir, title1, suffix1) == ImagePath(dir, title2, suffix2) {
        SameAround(dir + ProcessedDir, stem1 + "-" + suffix1, stem2 + "-" + suffix2, ".tif");
        HyphenSuffixUnique(stem1, suffix1, stem2, suffix2);
        assert false;
      }
    }
  }

  /** "stem-suffix" with hyphen-free parts splits at its only hyphen. */
  lemma {:induction false} HyphenSuffixUnique(stem1: string, suffix1: string, stem2: string, suffix2: string)
    requires '-' !in stem1 && '-' !in stem2
    requires stem1 + "-" + suffix1 == stem2 + "-" + suffix2
    ensures suffix1 == suffix2
  {
    var n := stem1 + "-" + suffix1;
    assert n[|stem1|] == '-' && n == stem2 + "-" + suffix2 && n[|stem2|] == '-';
    assert |stem1| == |stem2| by {
      assert forall i :: 0 <= i < |stem1| ==> n[i] == stem1[i];
      assert forall i :: 0 <= i < |stem2| ==> n[i] == stem2[i];
    }
    assert suffix1 == n[|stem1| + 1..] == suffix2;
  }

  lemma {:induction false} ImagePathOfName(dir: string, title: string, suffix: string)
    requires FileName(title, suffix).Ok?
    ensures ImagePath(dir, title, suffix) == Ok(dir + ProcessedDir + FileName(title, suffix).value + ".tif")
  {
  }

  /** The results table never lands on an image file. */
  lemma {:induction false} TableIsNotImage(dir: string, title1: string, title2: string, suffix: string)
    ensures TablePath(dir, title1).Ok? && ImagePath(dir, title2, suffix).Ok?
        ==> TablePath(dir, title1) != ImagePath(dir, title2, suffix)
  {
    if TablePath(dir, title1).Ok? && ImagePath(dir, title2, suffix).Ok? {
      var p := dir + ProcessedDir;
      TablePathOfName(dir, title1);
      ImagePathOfName(dir, title2, suffix);
      LastCharDiffers(p + FileName(title1, "dat").value, ".csv", p + FileName(title2, suffix).value, ".tif");
    }
  }

  lemma {:induction false} TablePathOfName(dir: string, title: string)
    requires FileName(title, "dat").Ok?
    ensures TablePath(dir, title) == Ok(dir + ProcessedDir + FileName(title, "dat").value + ".csv")
  {
  }

  /** Strings with different last characters differ. */
  lemma {:induction false} LastCharDiffers(x: string, e1: string, y: string, e2: string)
    requires e1 != [] && e2 != [] && e1[|e1| - 1] != e2[|e2| - 1]
    ensures x + e1 != y + e2
  {
    assert (x + e1)[|x + e1| - 1] == e1[|e1| - 1];
    assert (y + e2)[|y + e2| - 1] == e2[|e2| - 1];
  }

  // ---------------------------------------------------------------------
  // Experiment metadata

  /** Each token followed by an underscore. */
  function Suffixed(ts: seq<string>): string {
    if ts == [] then [] else ts[0] + "_" + Suffixed(ts[1..])
  }

  lemma {:induction false} SuffixedSnoc(ts: seq<string>, t: string)
    ensures Suffixed(ts + [t]) == Suffixed(ts) + t + "_"
  {
    if ts != [] {
      assert (ts + [t])[1..] == ts[1..] + [t];
      SuffixedSnoc(ts[1..], t);
    }
  }

  lemma {:induction false} SuffixedStep(ts: seq<string>, i: nat)
    requires 1 <= i < |ts|
    ensures Suffixed(ts[1..i + 1]) == Suffixed(ts[1..i]) + ts[i] + "_"
  {
    assert ts[1..i + 1] == ts[1..i] + [ts[i]];
    SuffixedSnoc(ts[1..i], ts[i]);
  }

  lemma {:induction false} SuffixedJoin(ts: seq<string>)
    requires ts != []
    ensures Suffixed(ts) == Join(ts, '_') + "_"
  {
    if |ts| > 1 {
      SuffixedJoin(ts[1..]);
    }
  }

  /** The removal string of `ExperimentName`: the underscore tokens of
      `name` from the second on, each followed by an underscore. */
  function RemovalString(name: string): string {
    var tokens := Split(name, '_');
    if |tokens| <= 1 then [] else Suffixed(tokens[1..])
  }

  /** The removal string is empty exactly when no underscore of `name` is
      followed by anything but underscores (in particular when `name` has
      no underscore at all). */
  lemma {:induction false} RemovalStringEmpty(name: string)
    ensures RemovalString(name) == [] <==> !HasSecondToken(name, '_')
  {
    SplitHasSecondToken(name, '_');
  }

  /** For a name "a_rest" whose first token `a` is underscore-free and
      whose `rest` does not end with an underscore, the removal string is
      everything after the first underscore, plus an underscore. */
  lemma {:induction false} RemovalStringOf(a: string, rest: string)
    requires '_' !in a && rest != [] && rest[|rest| - 1] != '_'
    ensures RemovalString(a + "_" + rest) == rest + "_"
  {
    var pieces := SplitAll(rest, '_');
    SplitAfterFirstToken(a, rest);
    assert ([a] + pieces)[1..] == pieces;
    SuffixedJoin(pieces);
    JoinSplitAll(rest, '_');
  }

  /** Splitting "a_rest" on underscores gives `a`, then the pieces of
      `rest`, none of them dropped when `rest` ends in a non-underscore. */
  lemma {:induction false} SplitAfterFirstToken(a: string, rest: string)
    requires '_' !in a && rest != [] && rest[|rest| - 1] != '_'
    ensures Split(a + "_" + rest, '_') == [a] + SplitAll(rest, '_')
  {
    var name := a + "_" + rest;
    assert name[|a|] == '_';
    SplitAllAfterFirst(a, rest, '_');
    SplitAllLastPiece(rest, '_');
  }

  /** What `ExperimentName` returns: the second hyphen token of the title,
      with every occurrence of the removal string deleted, split on
      underscores; the index fault of the second token otherwise. No token
      holds a hyphen, an underscore or whitespace. */
  function ExperimentTokens(title: string, name: string): (r: Result<seq<string>>)
    ensures r.Ok? <==> HasSecondToken(StripSpaces(title), '-')
    ensures r.Fail? ==> r.fault == IndexOutOfBounds
    ensures r.Ok? ==> forall p, c :: 0 <= p < |r.value| && c in r.value[p] ==> c != '-' && c != '_' && !IsSpace(c)
  {
    match SecondToken(title)
    case Fail(f) => Fail(f)
    case Ok(token) =>
      Ok(Split(RemoveAll(token, RemovalString(name)), '_'))
  }

  /** `ExperimentName`: the metadata tokens of the title and whether their
      number differs from the number of columns (which the plugin only
      logs). The `trim()` calls on the tokens discard their results, so the
      tokens are returned as split. */
  method ExperimentName(title: string, name: string, numCols: int) returns (tokens: Result<seq<string>>, mismatch: bool)
    ensures tokens == ExperimentTokens(title, name)
    ensures mismatch <==> tokens.Ok? && |tokens.value| != numCols
  {
    var second := SecondToken(title);
    if second.Fail? {
      return Fail(second.fault), false;
    }
    var replaceStr := "";
    var nameTokens := Split(name, '_');
    var i := 1;
    while i < |nameTokens|
      invariant 1 <= i && (i <= |nameTokens| || i == 1)
      invariant replaceStr == if |nameTokens| <= 1 then [] else Suffixed(nameTokens[1..i])
    {
      SuffixedStep(nameTokens, i);
      replaceStr := replaceStr + nameTokens[i] + "_";
      i := i + 1;
    }
    assert replaceStr == RemovalString(name) by {
      assert |nameTokens| > 1 ==> nameTokens[1..i] == nameTokens[1..];
    }
    var parts := Split(RemoveAll(second.value, replaceStr), '_');
    tokens := Ok(parts);
    mismatch := |parts| != numCols;
  }

  /** A name without an underscore token after the first removes nothing:
      the second hyphen token is split on underscores unchanged. */
  lemma {:induction false} ExperimentTokensPlainName(title: string, name: string)
    requires !HasSecondToken(name, '_')
    requires SecondToken(title).Ok?
    ensures ExperimentTokens(title, name) == Ok(Split(SecondToken(title).value, '_'))
  {
    RemovalStringEmpty(name);
  }

  /** The naming convention the code expects: the second hyphen token
      starts with the removal string and continues with the values joined
      by underscores, in which the removal string does not occur again;
      then exactly those values come back. */
  lemma {:induction false} ExperimentTokensOf(title: string, name: string, values: seq<string>)
    requires RemovalString(name) != []
    requires SecondToken(title) == Ok(RemovalString(name) + Join(values, '_'))
    requires !Occurs(RemovalString(name), Join(values, '_'))
    requires |values| >= 1 && forall p :: 0 <= p < |values| ==> '_' !in values[p]
    requires |values| == 1 || values[|values| - 1] != []
    ensures ExperimentTokens(title, name) == Ok(values)
  {
    var removal, joined := RemovalString(name), Join(values, '_');
    assert removal + joined == [] + removal + joined;
    RemoveAllFirst([], removal, joined);
    RemoveAllAbsent(joined, removal);
    SplitJoin(values, '_');
  }

  /** The title "2021-04-cellA_di8_50pct" read with a file name that has no
      underscore: the code takes the text between the first two hyphens,
      so the metadata is the single token "04", and the underscore part
      after the second hyphen is never read. */
  lemma {:induction false} ExampleTitleTokens(title: string, name: string)
    requires title == "2021-04-cellA_di8_50pct" && '_' !in name
    ensures ExperimentTokens(title, name) == Ok(["04"])
  {
    ExampleTitleSecondToken(title);
    assert !HasSecondToken(name, '_') by {
      forall i | 0 <= i < |name| ensures name[i] != '_' {
        assert name[i] in name;
      }
    }
    ExperimentTokensPlainName(title, name);
    assert '_' !in "04";
  }

  lemma {:induction false} ExampleTitleSecondToken(title: string)
    requires title == "2021-04-cellA_di8_50pct"
    ensures SecondToken(title) == Ok("04")
  {
    ExampleTitleParts(title);
    StripSpacesNoop(title);
    SecondTokenOf(title, title[..4], title[5..7], title[7..]);
  }

  lemma {:induction false} ExampleTitleParts(title: string)
    requires title == "2021-04-cellA_di8_50pct"
    ensures NoSpace(title)
    ensures title == title[..4] + "-" + title[5..7] + title[7..]
    ensures '-' !in title[..4] && '-' !in title[5..7] && title[5..7] == "04" && title[7] == '-'
  {
    ExampleTitleNoSpace(title);
    assert title[4] == '-';
    assert title == title[..4] + [title[4]] + title[5..7] + title[7..];
    forall c | c in title[..4] ensures c != '-' {
      var i :| 0 <= i < 4 && title[..4][i] == c;
    }
  }

  lemma {:induction false} ExampleTitleNoSpace(title: string)
    requires title == "2021-04-cellA_di8_50pct"
    ensures NoSpace(title)
  {
    forall i | 0 <= i < |title| ensures !IsSpace(title[i]) {
      assert title[i] as int > 0x20;
    }
  }
}
