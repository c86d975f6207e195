/**
  The argument parser of the command-line toolkit (src/utils/args.ts).

  `ParseArgs` scans the raw tokens with a hand-advanced index: a token that
  starts with `--` is a flag; the token after it becomes its value when it
  exists, is non-empty and is not a flag itself, and is then skipped; a flag
  without such a value gets the sentinel `"true"`. Every other token is a
  positional parameter.

  The method is proved equal to `Parse`, a right-to-left reference
  definition, and `Parse` is in turn related to `KindOf`, a purely local
  classification of each token.
 */
module Args {
  import opened Wrappers

  /** Positional parameters in input order, and the flag table. */
  datatype ParsedArgs = ParsedArgs(params: seq<string>, flags: map<string, string>)

  /** The value recorded for a flag that has no value token. */
  const TrueSentinel: string := "true"

  predicate IsFlag(token: string) {
    |token| >= 2 && token[0] == '-' && token[1] == '-'
  }

  /** The flag name is the token without its `--` marker. */
  function FlagName(token: string): (name: string)
    requires IsFlag(token)
    ensures "--" + name == token
    ensures |name| == |token| - 2
  {
    token[2..]
  }

  /** The flag at index `i` takes the next token as its value: that token
      exists, is non-empty (JavaScript truthiness) and is not a flag. */
  predicate TakesValue(args: seq<string>, i: nat) {
    i + 1 < |args| && args[i + 1] != "" && !IsFlag(args[i + 1])
  }

  /** Reference definition, read from the right: the flags of the rest of the
      list win over the flag at the front (the last occurrence wins). */
  function Parse(args: seq<string>): ParsedArgs
    decreases |args|
  {
    if args == [] then ParsedArgs([], map[])
    else if IsFlag(args[0]) then
      if TakesValue(args, 0) then
        var rest := Parse(args[2..]);
        ParsedArgs(rest.params, map[FlagName(args[0]) := args[1]] + rest.flags)
      else
        var rest := Parse(args[1..]);
        ParsedArgs(rest.params, map[FlagName(args[0]) := TrueSentinel] + rest.flags)
    else
      var rest := Parse(args[1..]);
      ParsedArgs([args[0]] + rest.params, rest.flags)
  }

  /** What has been parsed so far, followed by what the rest of the list parses to. */
  ghost function Combine(done: ParsedArgs, rest: ParsedArgs): ParsedArgs {
    ParsedArgs(done.params + rest.params, done.flags + rest.flags)
  }

  /** One step of `Parse` on the suffix that starts at `i`. */
  lemma ParseUnfold(args: seq<string>, i: nat)
    requires i < |args|
    ensures IsFlag(args[i]) && TakesValue(args, i) ==>
              Parse(args[i..]) == ParsedArgs(Parse(args[i + 2..]).params,
                                             map[FlagName(args[i]) := args[i + 1]] + Parse(args[i + 2..]).flags)
    ensures IsFlag(args[i]) && !TakesValue(args, i) ==>
              Parse(args[i..]) == ParsedArgs(Parse(args[i + 1..]).params,
                                             map[FlagName(args[i]) := TrueSentinel] + Parse(args[i + 1..]).flags)
    ensures !IsFlag(args[i]) ==>
              Parse(args[i..]) == ParsedArgs([args[i]] + Parse(args[i + 1..]).params, Parse(args[i + 1..]).flags)
  {
    var s := args[i..];
    assert s[0] == args[i];
    assert s[1..] == args[i + 1..];
    if i + 1 < |args| {
      assert s[2..] == args[i + 2..];
    }
  }

  lemma CombineFlag(done: ParsedArgs, name: string, value: string, rest: ParsedArgs)
    ensures Combine(ParsedArgs(done.params, done.flags[name := value]), rest)
         == Combine(done, ParsedArgs(rest.params, map[name := value] + rest.flags))
  {
    var left := done.flags[name := value] + rest.flags;
    var right := done.flags + (map[name := value] + rest.flags);
    assert left.Keys == right.Keys;
    assert forall n :: n in left ==> left[n] == right[n];
  }

  lemma CombineParam(done: ParsedArgs, param: string, rest: ParsedArgs)
    ensures Combine(ParsedArgs(done.params + [param], done.flags), rest)
         == Combine(done, ParsedArgs([param] + rest.params, rest.flags))
  {
    assert (done.params + [param]) + rest.params == done.params + ([param] + rest.params);
  }

  lemma CombineEmpty(done: ParsedArgs)
    ensures Combine(done, ParsedArgs([], map[])) == done
  {
    assert done.params + [] == done.params;
    assert done.flags + map[] == done.flags;
  }

  /** The scan of args.ts:6-27, with the index advanced by hand. */
  method ParseArgs(args: seq<string>) returns (parsed: ParsedArgs)
    ensures parsed == Parse(args)
  {
    var params: seq<string> := [];
    var flags: map<string, string> := map[];
    var i := 0;
    while i < |args|
      invariant 0 <= i <= |args|
      invariant Combine(ParsedArgs(params, flags), Parse(args[i..])) == Parse(args)
      decreases |args| - i
    {
      ParseUnfold(args, i);
      if IsFlag(args[i]) {
        var flagName := args[i][2..];
        if i + 1 < |args| && args[i + 1] != "" && !IsFlag(args[i + 1]) {
          CombineFlag(ParsedArgs(params, flags), flagName, args[i + 1], Parse(args[i + 2..]));
          flags := flags[flagName := args[i + 1]];
          i := i + 1;
        } else {
          CombineFlag(ParsedArgs(params, flags), flagName, TrueSentinel, Parse(args[i + 1..]));
          flags := flags[flagName := TrueSentinel];
        }
      } else {
        CombineParam(ParsedArgs(params, flags), args[i], Parse(args[i + 1..]));
        params := params + [args[i]];
      }
      i := i + 1;
    }
    CombineEmpty(ParsedArgs(params, flags));
    parsed := ParsedArgs(params, flags);
  }

  /** The lookup of args.ts:29-31: `flags.get(name) || defaultValue`, so a
      missing or empty stored value yields the default, which may be absent. */
  function GetFlag(flags: map<string, string>, name: string, default: Option<string>): Option<string> {
    if name in flags && flags[name] != "" then Some(flags[name]) else default
  }

  // ---------------------------------------------------------------------
  // A local classification of the tokens
  // ---------------------------------------------------------------------

  datatype TokenKind = Param | FlagToken | FlagValue

  /** Each token is a flag, the value consumed by the flag just before it, or
      a positional parameter; this depends only on the token and its
      predecessor, because a flag is never consumed as a value. */
  function KindOf(args: seq<string>, k: nat): TokenKind
    requires k < |args|
  {
    if IsFlag(args[k]) then FlagToken
    else if k > 0 && IsFlag(args[k - 1]) && TakesValue(args, k - 1) then FlagValue
    else Param
  }

  /** The tokens of kind `Param` from index `j` on, in input order. */
  function ParamsFrom(args: seq<string>, j: nat): seq<string>
    requires j <= |args|
    decreases |args| - j
  {
    if j == |args| then []
    else (if KindOf(args, j) == Param then [args[j]] else []) + ParamsFrom(args, j + 1)
  }

  /** The number of tokens of the given kind from index `j` on. */
  function CountFrom(args: seq<string>, kind: TokenKind, j: nat): nat
    requires j <= |args|
    decreases |args| - j
  {
    if j == |args| then 0
    else (if KindOf(args, j) == kind then 1 else 0) + CountFrom(args, kind, j + 1)
  }

  /** The scan never starts at a consumed value: `j` is the start of the list
      or a token boundary of the scan. */
  predicate ScanStart(args: seq<string>, j: nat) {
    j <= |args| && (j == |args| || KindOf(args, j) != FlagValue)
  }

  lemma {:induction false} ParamsFromScanStart(args: seq<string>, j: nat)
    requires ScanStart(args, j)
    ensures Parse(args[j..]).params == ParamsFrom(args, j)
    decreases |args| - j
  {
    if j < |args| {
      var s := args[j..];
      assert s[0] == args[j];
      if IsFlag(args[j]) {
        if TakesValue(args, j) {
          assert TakesValue(s, 0);
          assert s[2..] == args[j + 2..];
          assert KindOf(args, j + 1) == FlagValue;
          ParamsFromScanStart(args, j + 2);
        } else {
          assert s[1..] == args[j + 1..];
          ParamsFromScanStart(args, j + 1);
        }
      } else {
        assert s[1..] == args[j + 1..];
        ParamsFromScanStart(args, j + 1);
      }
    }
  }

  /** The positional parameters are exactly the tokens that are neither flags
      nor consumed flag values, in input order (args.ts:10-24). */
  lemma ParamsAreUnconsumedTokens(args: seq<string>)
    ensures Parse(args).params == ParamsFrom(args, 0)
    ensures forall p :: p in Parse(args).params ==>
              exists k :: 0 <= k < |args| && KindOf(args, k) == Param && args[k] == p
  {
    assert args[0..] == args;
    ParamsFromScanStart(args, 0);
    ParamsFromAreParams(args, 0);
  }

  lemma {:induction false} ParamsFromAreParams(args: seq<string>, j: nat)
    requires j <= |args|
    ensures forall p :: p in ParamsFrom(args, j) ==>
              exists k :: j <= k < |args| && KindOf(args, k) == Param && args[k] == p
    decreases |args| - j
  {
    if j < |args| {
      ParamsFromAreParams(args, j + 1);
    }
  }

  /** Each token is counted as exactly one of: a positional parameter, a
      flag, a consumed value (args.ts:10-24). */
  lemma {:induction false} TokenAccountingFrom(args: seq<string>, j: nat)
    requires j <= |args|
    ensures |ParamsFrom(args, j)| + CountFrom(args, FlagToken, j) + CountFrom(args, FlagValue, j) == |args| - j
    decreases |args| - j
  {
    if j < |args| {
      TokenAccountingFrom(args, j + 1);
    }
  }

  lemma TokenAccounting(args: seq<string>)
    ensures |Parse(args).params| + CountFrom(args, FlagToken, 0) + CountFrom(args, FlagValue, 0) == |args|
  {
    ParamsAreUnconsumedTokens(args);
    TokenAccountingFrom(args, 0);
  }

  /** The token at `k` is a flag named `name`. */
  predicate FlagAt(args: seq<string>, k: nat, name: string) {
    k < |args| && IsFlag(args[k]) && FlagName(args[k]) == name
  }

  /** No flag named `name` occurs after index `k`. */
  predicate LastFlagAt(args: seq<string>, k: nat, name: string) {
    FlagAt(args, k, name) && forall k' :: k < k' < |args| ==> !FlagAt(args, k', name)
  }

  /** The value a flag token stands for: its consumed value, else the sentinel. */
  function ValueAt(args: seq<string>, k: nat): string
    requires k < |args|
  {
    if TakesValue(args, k) then args[k + 1] else TrueSentinel
  }

  /** One step of the scan from a token boundary `j`: the boundary after it,
      and how the flag table of the suffix at `j` is made from the one at
      that boundary. */
  lemma ParseStep(args: seq<string>, j: nat) returns (next: nat)
    requires ScanStart(args, j) && j < |args|
    ensures next == if IsFlag(args[j]) && TakesValue(args, j) then j + 2 else j + 1
    ensures ScanStart(args, next)
    ensures IsFlag(args[j]) ==>
              Parse(args[j..]).flags == map[FlagName(args[j]) := ValueAt(args, j)] + Parse(args[next..]).flags
    ensures !IsFlag(args[j]) ==> Parse(args[j..]).flags == Parse(args[next..]).flags
    ensures forall k, name :: j < k < next ==> !FlagAt(args, k, name)
  {
    var s := args[j..];
    assert s[0] == args[j];
    if IsFlag(args[j]) && TakesValue(args, j) {
      next := j + 2;
      assert TakesValue(s, 0);
      assert s[2..] == args[j + 2..];
      assert !IsFlag(args[j + 1]);
    } else {
      next := j + 1;
      assert s[1..] == args[j + 1..];
    }
  }

  lemma {:induction false} FlagKeysFrom(args: seq<string>, j: nat)
    requires ScanStart(args, j)
    ensures forall name :: name in Parse(args[j..]).flags <==>
              exists k :: j <= k < |args| && FlagAt(args, k, name)
    decreases |args| - j
  {
    if j < |args| {
      var next := ParseStep(args, j);
      FlagKeysFrom(args, next);
      var flags := Parse(args[j..]).flags;
      var rest := Parse(args[next..]).flags;
      forall name
        ensures name in flags <==> exists k :: j <= k < |args| && FlagAt(args, k, name)
      {
        if FlagAt(args, j, name) {
          assert name in flags;
        } else {
          assert name in flags <==> name in rest;
          assert (exists k :: j <= k < |args| && FlagAt(args, k, name))
             <==> (exists k :: next <= k < |args| && FlagAt(args, k, name));
        }
      }
    }
  }

  lemma {:induction false} FlagValuesFrom(args: seq<string>, j: nat)
    requires ScanStart(args, j)
    ensures forall k, name :: j <= k < |args| && LastFlagAt(args, k, name) ==>
              name in Parse(args[j..]).flags && Parse(args[j..]).flags[name] == ValueAt(args, k)
    decreases |args| - j
  {
    if j < |args| {
      var next := ParseStep(args, j);
      FlagValuesFrom(args, next);
      FlagKeysFrom(args, next);
      var flags := Parse(args[j..]).flags;
      var rest := Parse(args[next..]).flags;
      forall k, name | j <= k < |args| && LastFlagAt(args, k, name)
        ensures name in flags && flags[name] == ValueAt(args, k)
      {
        if k == j {
          assert forall k' :: next <= k' < |args| ==> !FlagAt(args, k', name);
          assert name !in rest;
        } else {
          assert next <= k;
        }
      }
    }
  }

  /** A name is in the flag table exactly when a flag token carries it, and
      its value is the one the LAST such token stands for: a repeated flag
      overwrites the earlier entry (args.ts:11-20). */
  lemma FlagsAreLastOccurrences(args: seq<string>)
    ensures forall name :: name in Parse(args).flags <==>
              exists k :: 0 <= k < |args| && FlagAt(args, k, name)
    ensures forall k, name :: 0 <= k < |args| && LastFlagAt(args, k, name) ==>
              name in Parse(args).flags && Parse(args).flags[name] == ValueAt(args, k)
  {
    assert args[0..] == args;
    FlagKeysFrom(args, 0);
    FlagValuesFrom(args, 0);
  }

  /** Every stored value is non-empty: either a consumed non-empty token or
      the sentinel. */
  lemma {:induction false} ParsedValuesNonEmpty(args: seq<string>)
    ensures forall name :: name in Parse(args).flags ==> Parse(args).flags[name] != ""
    decreases |args|
  {
    if args != [] {
      if IsFlag(args[0]) && TakesValue(args, 0) {
        ParsedValuesNonEmpty(args[2..]);
      } else {
        ParsedValuesNonEmpty(args[1..]);
      }
    }
  }

  /** On a parsed table `getFlag` falls back to the default exactly when the
      flag was not given (args.ts:29-31). */
  lemma GetFlagOnParsed(args: seq<string>, name: string, default: Option<string>)
    ensures name in Parse(args).flags ==> GetFlag(Parse(args).flags, name, default) == Some(Parse(args).flags[name])
    ensures name !in Parse(args).flags ==> GetFlag(Parse(args).flags, name, default) == default
  {
    ParsedValuesNonEmpty(args);
  }

  /** A bare flag at the end of the list, or one followed by another flag or
      an empty token, gets the sentinel, and the following token is scanned
      on its own (args.ts:15,18-19). */
  lemma BareFlagGetsSentinel(args: seq<string>, k: nat)
    requires k < |args| && IsFlag(args[k]) && !TakesValue(args, k)
    requires LastFlagAt(args, k, FlagName(args[k]))
    ensures FlagName(args[k]) in Parse(args).flags
    ensures Parse(args).flags[FlagName(args[k])] == TrueSentinel
    ensures k + 1 < |args| ==> KindOf(args, k + 1) != FlagValue
  {
    FlagsAreLastOccurrences(args);
  }

  /** Four worked examples of the parser. */
  lemma ParseExamples()
    ensures Parse(["foo", "--size", "1024x1024", "bar"]) == ParsedArgs(["foo", "bar"], map["size" := "1024x1024"])
    ensures Parse(["--verbose", "x"]) == ParsedArgs([], map["verbose" := "x"])
    ensures Parse(["--verbose", "--size"]) == ParsedArgs([], map["verbose" := "true", "size" := "true"])
    ensures Parse(["--", ""]) == ParsedArgs([""], map["" := "true"])
  {
    var a := ["foo", "--size", "1024x1024", "bar"];
    assert a[1..][2..] == ["bar"];
    assert ["--verbose", "--size"][1..] == ["--size"];
    assert ["--", ""][1..] == [""];
  }
}
