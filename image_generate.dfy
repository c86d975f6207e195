/**
  The argument handling of the `image-generate` command
  (src/commands/image-generate.ts): the two usage checks, the prompt, the
  size chosen from a whitelist, and the name of the saved PNG file. The
  image service, the download and the file write are not modelled.
 */
module ImageGenerate {
  import opened Wrappers
  import Args
  import Helpers
  import Registry

  const DefaultSize: string := "1024x1024"
  const ValidSizes: seq<string> := ["1024x1024", "1792x1024", "1024x1792"]

  /** The exit status of both usage errors. */
  const UsageStatus: int := 1

  /** The two usage errors, each of which ends the process with status 1. */
  datatype UsageError = MissingArguments | PromptRequired

  /** How `execute` ends on a usage error: the command exits the process
      itself (image-generate.ts:15,22), so the registry's `catch` does not
      report it as a failure. */
  function UsageOutcome(e: UsageError): (outcome: Registry.CommandOutcome)
    ensures outcome.Exited? && outcome.code == UsageStatus
  {
    Registry.Exited(UsageStatus)
  }

  /** The size the user asked for, the size used, and whether a warning was
      printed because the two differ. */
  datatype SizeChoice = SizeChoice(requested: string, size: string, warned: bool)

  /** What the command goes on to generate once the checks pass. */
  datatype ImageJob = ImageJob(prompt: string, choice: SizeChoice)

  /** `Array.prototype.join(' ')`. */
  function JoinWithSpaces(parts: seq<string>): (r: string)
    ensures parts == [] ==> r == ""
    ensures |parts| == 1 ==> r == parts[0]
    ensures parts != [] ==> |parts[0]| <= |r| && r[..|parts[0]|] == parts[0]
    ensures |parts| > 1 ==> |parts[0]| < |r| && r[|parts[0]|] == ' '
    decreases |parts|
  {
    if parts == [] then ""
    else if |parts| == 1 then parts[0]
    else parts[0] + " " + JoinWithSpaces(parts[1..])
  }

  /** `String.prototype.split(' ')`: the pieces between single spaces. */
  function SplitOnSpaces(s: string): (pieces: seq<string>)
    ensures |pieces| >= 1
    decreases |s|
  {
    if s == [] then [""]
    else
      var rest := SplitOnSpaces(s[1..]);
      if s[0] == ' ' then [""] + rest else [[s[0]] + rest[0]] + rest[1..]
  }

  lemma {:induction false} SplitWord(word: string, tail: string)
    requires ' ' !in word
    ensures SplitOnSpaces(word + tail) ==
              [word + SplitOnSpaces(tail)[0]] + SplitOnSpaces(tail)[1..]
    decreases |word|
  {
    if word == [] {
      var pieces := SplitOnSpaces(tail);
      assert word + tail == tail;
      assert word + pieces[0] == pieces[0];
      assert [pieces[0]] + pieces[1..] == pieces;
    } else {
      var s := word + tail;
      assert s[0] == word[0];
      assert s[1..] == word[1..] + tail;
      assert word[0] != ' ';
      assert ' ' !in word[1..];
      SplitWord(word[1..], tail);
      assert [word[0]] + (word[1..] + SplitOnSpaces(tail)[0]) == word + SplitOnSpaces(tail)[0];
    }
  }

  /** Splitting the prompt on spaces gives the parameters back, as long as
      none of them holds a space itself. */
  lemma {:induction false} JoinSplitRoundTrip(parts: seq<string>)
    requires parts != []
    requires forall k :: 0 <= k < |parts| ==> ' ' !in parts[k]
    ensures SplitOnSpaces(JoinWithSpaces(parts)) == parts
    decreases |parts|
  {
    if |parts| == 1 {
      SplitWord(parts[0], "");
      assert parts[0] + "" == parts[0];
    } else {
      var rest := JoinWithSpaces(parts[1..]);
      JoinSplitRoundTrip(parts[1..]);
      SplitWord(parts[0], " " + rest);
      assert parts[0] + " " + rest == parts[0] + (" " + rest);
      assert (" " + rest)[0] == ' ' && (" " + rest)[1..] == rest;
      assert SplitOnSpaces(" " + rest) == [""] + parts[1..];
      assert parts[0] + "" == parts[0];
      assert [parts[0]] + parts[1..] == parts;
    }
  }

  /** The size flag of image-generate.ts:26-36: the requested value is the
      `--size` flag when it is given and non-empty, else the default; a value
      outside the whitelist is replaced by the default with a warning. */
  function SelectSize(flags: map<string, string>): (choice: SizeChoice)
    ensures choice.size in ValidSizes
    ensures choice.warned <==> choice.requested != choice.size
    ensures "size" !in flags || flags["size"] == "" ==> choice == SizeChoice(DefaultSize, DefaultSize, false)
    ensures "size" in flags && flags["size"] in ValidSizes ==>
              choice == SizeChoice(flags["size"], flags["size"], false)
    ensures choice.warned <==> "size" in flags && flags["size"] != "" && flags["size"] !in ValidSizes
    ensures choice.warned ==> choice.requested == flags["size"] && choice.size == DefaultSize
  {
    var requested :=
      match Args.GetFlag(flags, "size", None)
      case Some(v) => if v != "" then v else DefaultSize
      case None => DefaultSize;
    var size := if requested in ValidSizes then requested else DefaultSize;
    SizeChoice(requested, size, requested != size)
  }

  /** The checks of image-generate.ts:12-36. An empty argument list is a
      usage error before anything is parsed; a list without positional
      parameters is the "Prompt is required" error; otherwise the prompt is
      the parameters joined with single spaces and the size is chosen. */
  method Prepare(args: seq<string>) returns (r: Result<ImageJob, UsageError>)
    ensures r == Failure(MissingArguments) <==> args == []
    ensures r == Failure(PromptRequired) <==> args != [] && Args.ParamsFrom(args, 0) == []
    ensures r.Success? ==>
              && r.value.prompt == JoinWithSpaces(Args.ParamsFrom(args, 0))
              && r.value.choice == SelectSize(Args.Parse(args).flags)
  {
    if |args| == 0 {
      return Failure(MissingArguments);
    }
    var parsed := Args.ParseArgs(args);
    Args.ParamsAreUnconsumedTokens(args);
    if |parsed.params| == 0 {
      return Failure(PromptRequired);
    }
    var prompt := JoinWithSpaces(parsed.params);
    var choice := SelectSize(parsed.flags);
    r := Success(ImageJob(prompt, choice));
  }

  /** A usage error reaches the registry as the command's own exit
      (image-generate.ts:15,22): dispatch ends the process with status 1 and,
      because nothing was thrown, reports no failure (registry.ts:22-27). */
  method DispatchUsageError(registry: Registry.CommandRegistry, name: string, args: seq<string>, e: UsageError)
      returns (events: seq<Registry.Event>, ending: Registry.Ending)
    requires registry.Valid()
    requires name in registry.commands && registry.commands[name].run(args) == UsageOutcome(e)
    ensures events == [Registry.Invoked(name, args)]
    ensures ending == Registry.Exit(UsageStatus)
    ensures forall k :: 0 <= k < |events| ==> !events[k].Failed?
  {
    events, ending := registry.Execute(name, args);
  }

  /** A bare `--size` records the sentinel `"true"`, which is not a size:
      the default is used and a warning is printed. */
  lemma BareSizeFlagWarns(prompt: string)
    requires !Args.IsFlag(prompt)
    ensures SelectSize(Args.Parse([prompt, "--size"]).flags) == SizeChoice("true", DefaultSize, true)
  {
    var args := [prompt, "--size"];
    assert args[1..] == ["--size"];
    assert Args.FlagName("--size") == "size";
    assert ["--size"][1..] == [];
    assert !Args.TakesValue(["--size"], 0);
    assert Args.Parse(["--size"]).flags == map["size" := "true"] + map[];
    assert map["size" := "true"] + map[] == map["size" := "true"];
    assert Args.Parse(args).flags == map["size" := "true"];
  }

  /** An unknown size never aborts the command: `--size 999x999` falls back
      to the default with a warning. */
  lemma InvalidSizeFallsBack(prompt: string)
    requires !Args.IsFlag(prompt)
    ensures SelectSize(Args.Parse([prompt, "--size", "999x999"]).flags) == SizeChoice("999x999", DefaultSize, true)
  {
    var args := [prompt, "--size", "999x999"];
    var rest := ["--size", "999x999"];
    assert args[1..] == rest;
    assert rest[2..] == [];
    assert Args.FlagName("--size") == "size";
    assert Args.TakesValue(rest, 0);
    assert Args.Parse(rest).flags == map["size" := "999x999"] + map[];
    assert map["size" := "999x999"] + map[] == map["size" := "999x999"];
    assert Args.Parse(args).flags == map["size" := "999x999"];
  }

  /** The file name of image-generate.ts:51: slug, size and timestamp. */
  function ImageFilename(prompt: string, size: string, iso: string): (name: string)
    ensures var slug := Helpers.SanitizeFilename(prompt);
            && |name| == |slug| + |size| + |Helpers.FormatTimestamp(iso)| + 6
            && name[..|slug|] == slug
            && name[|name| - 4..] == ".png"
  {
    Helpers.SanitizeFilename(prompt) + "-" + size + "-" + Helpers.FormatTimestamp(iso) + ".png"
  }

  /** The parts that an image file name is made of. */
  datatype FilenameParts = FilenameParts(slug: string, size: string, timestamp: string)

  const SizeLength: nat := 9
  const TimestampLength: nat := 19

  /** Reads an image file name back from its end: `.png`, a 19-character
      timestamp, `-`, a 9-character size, `-`, and the slug before them. */
  function SplitImageFilename(name: string): Option<FilenameParts> {
    var n := |name|;
    var tail := 4 + TimestampLength + 1 + SizeLength + 1;
    if n < tail || name[n - 4..] != ".png" || name[n - tail] != '-' || name[n - 4 - TimestampLength - 1] != '-' then None
    else
      Some(FilenameParts(
        name[..n - tail],
        name[n - tail + 1..n - 4 - TimestampLength - 1],
        name[n - 4 - TimestampLength..n - 4]))
  }

  /** Joining a slug, a 9-character size and a 19-character timestamp
      can be undone by `SplitImageFilename`, whatever the slug holds. */
  lemma SplitJoined(slug: string, size: string, stamp: string)
    requires |size| == SizeLength && |stamp| == TimestampLength
    ensures SplitImageFilename(slug + "-" + size + "-" + stamp + ".png") == Some(FilenameParts(slug, size, stamp))
  {
    var name := slug + "-" + size + "-" + stamp + ".png";
    assert name == slug + ("-" + size + "-" + stamp + ".png");
    assert |name| == |slug| + 34;
    assert name[..|slug|] == slug;
    assert name[|slug|] == '-';
    assert name[|slug| + 1..|slug| + 10] == size;
    assert name[|slug| + 10] == '-';
    assert name[|slug| + 11..|slug| + 30] == stamp;
    assert name[|slug| + 30..] == ".png";
  }

  /** The slug, the size and the timestamp can be read back from the name of
      an image file, for every whitelisted size and ISO instant. */
  lemma FilenameRoundTrip(prompt: string, size: string, iso: string)
    requires size in ValidSizes
    requires Helpers.IsIsoInstant(iso)
    ensures SplitImageFilename(ImageFilename(prompt, size, iso))
         == Some(FilenameParts(Helpers.SanitizeFilename(prompt), size, Helpers.FormatTimestamp(iso)))
  {
    assert |Helpers.FormatTimestamp(iso)| == TimestampLength;
    assert |size| == SizeLength;
    SplitJoined(Helpers.SanitizeFilename(prompt), size, Helpers.FormatTimestamp(iso));
  }

  /** The name has no `/`, so the file lands directly in the images
      directory, whatever the prompt. */
  lemma FilenameHasNoSlash(prompt: string, size: string, iso: string)
    requires size in ValidSizes
    requires '/' !in iso
    ensures '/' !in ImageFilename(prompt, size, iso)
  {
    SlugHasNoSlash(prompt);
    TimestampHasNoSlash(iso);
    assert '/' !in size;
    NoSlashJoined(Helpers.SanitizeFilename(prompt), size, Helpers.FormatTimestamp(iso));
  }

  lemma NoSlashJoined(slug: string, size: string, stamp: string)
    requires '/' !in slug && '/' !in size && '/' !in stamp
    ensures '/' !in slug + "-" + size + "-" + stamp + ".png"
  {
  }

  lemma SlugHasNoSlash(prompt: string)
    ensures '/' !in Helpers.SanitizeFilename(prompt)
  {
    var slug := Helpers.SanitizeFilename(prompt);
    Helpers.SanitizeIsCollapsed(prompt);
    forall k | 0 <= k < |slug| ensures slug[k] != '/' {
      assert Helpers.IsSlugChar(slug[k]) || slug[k] == '-';
    }
  }

  lemma TimestampHasNoSlash(iso: string)
    requires '/' !in iso
    ensures '/' !in Helpers.FormatTimestamp(iso)
  {
    var stamp := Helpers.FormatTimestamp(iso);
    forall k | 0 <= k < |stamp| ensures stamp[k] != '/' {
      assert stamp[k] == iso[k] || stamp[k] == '-';
    }
  }
}
