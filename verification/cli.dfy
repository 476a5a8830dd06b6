/**
 The command line of the conversion script: the argument list, program name
 first, mapped to the input and output paths.
 */
module Cli {
  import opened Text

  datatype Paths = Paths(input: string, output: string)

  const DefaultInput := "shared/schema.ts"
  const DefaultOutput := "shared/schema-sqlite.ts"
  const TsExtension := ".ts"
  const SqliteExtension := "-sqlite.ts"

  /** The output path derived from an input path: `str.replace` of every
      `.ts`, wherever it occurs, by `-sqlite.ts`. */
  function DerivedOutput(input: string): string {
    ReplaceAll(input, TsExtension, SqliteExtension)
  }

  /** With no argument, the default paths; with one, that input and the output
      derived from it; with two or more, the first two, the rest ignored. */
  function ResolvePaths(argv: seq<string>): (r: Paths)
    ensures |argv| < 2 ==> r == Paths(DefaultInput, DefaultOutput)
    ensures |argv| >= 2 ==> r.input == argv[1]
    ensures |argv| >= 3 ==> r.output == argv[2]
    ensures |argv| == 2 ==> r.output == DerivedOutput(argv[1])
  {
    if |argv| < 2 then Paths(DefaultInput, DefaultOutput)
    else Paths(argv[1], if |argv| > 2 then argv[2] else DerivedOutput(argv[1]))
  }

  /** With one argument that holds no `.ts`, the output path is the input
      path itself, so the conversion would overwrite its own input. */
  lemma NoExtensionSamePath(argv: seq<string>)
    requires |argv| == 2 && AbsentFrom(argv[1], TsExtension, 0)
    ensures ResolvePaths(argv).output == argv[1]
  {
    ReplaceAllAbsent(argv[1], TsExtension, SqliteExtension);
  }

  /** Each `.ts` of the input, counted without overlap, lengthens the derived
      output by the seven characters of `-sqlite`. */
  lemma {:induction false} DerivedOutputLength(input: string)
    ensures |DerivedOutput(input)| == |input| + 7 * CountAll(input, TsExtension)
  {
    ReplaceAllLength(input, TsExtension, SqliteExtension);
  }

  /** A path that ends in its only `.ts` gets `-sqlite` before that extension. */
  lemma DerivedOutputOfTsPath(stem: string)
    requires AbsentFrom(stem, TsExtension, 0)
    ensures DerivedOutput(stem + TsExtension) == stem + SqliteExtension
  {
    var s := stem + TsExtension;
    var n := |stem|;
    assert OccursAt(s, TsExtension, n) by {
      assert s[n..n + 3] == TsExtension;
    }
    forall j | 0 <= j < n
      ensures !OccursAt(s, TsExtension, j)
    {
      if j + 3 <= n {
        assert s[j..j + 3] == stem[j..j + 3];
        assert !OccursAt(stem, TsExtension, j);
      } else {
        assert s[n] == '.' != TsExtension[n - j];
        assert s[j..j + 3][n - j] != TsExtension[n - j];
      }
    }
    FindIsFirst(s, TsExtension, 0, n);
    ReplaceAllStep(s, TsExtension, SqliteExtension, n, stem, []);
    assert s[..n] == stem;
  }

  /** A path without a dot holds no `.ts`. */
  lemma NoDotNoExtension(path: string)
    requires '.' !in path
    ensures AbsentFrom(path, TsExtension, 0)
  {
    forall j | 0 <= j <= |path|
      ensures !OccursAt(path, TsExtension, j)
    {
      if OccursAt(path, TsExtension, j) {
        OccursAtContains(path, TsExtension, j, 0);
      }
    }
  }

  /** The default output path is the one the rule for a single argument
      would derive from the default input path. */
  lemma DefaultsAgree()
    ensures DerivedOutput(DefaultInput) == DefaultOutput
  {
    var stem := "shared/schema";
    assert '.' !in stem;
    NoDotNoExtension(stem);
    DerivedOutputOfTsPath(stem);
    assert stem + TsExtension == DefaultInput;
    DefaultOutputSpelled();
  }

  /* ---------- proof steps ---------- */

  /** The default output path, spelled from its stem and the SQLite extension. */
  lemma DefaultOutputSpelled()
    ensures "shared/schema" + SqliteExtension == DefaultOutput
  {
    var a := "shared/schema" + SqliteExtension;
    forall i | 0 <= i < |a|
      ensures a[i] == DefaultOutput[i]
    {
      if i < 13 {
        assert a[i] == "shared/schema"[i];
      } else {
        assert a[i] == SqliteExtension[i - 13];
      }
    }
  }
}
