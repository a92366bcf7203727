/**
 * Parallel.Compression.Cli/ParamsParsing/CommandKeyOption.cs and CommandArgument.cs: a
 * command with positional parameters and `key value` options, and the parser that maps an
 * argument array to a dictionary of values. Null strings are `None`.
 */
module CommandLine {
  import opened Wrappers
  import opened Text

  /** `CommandKeyOption.ValueLooksLikeOptionKey`: a non-null value that starts with `-`. */
  predicate ValueLooksLikeOptionKey(value: Option<string>)
    ensures ValueLooksLikeOptionKey(value) ==> value.Some? && value.value != []
  {
    value.Some? && StartsWith(value.value, "-")
  }

  lemma OptionKeyShape(value: string)
    ensures ValueLooksLikeOptionKey(Some(value)) <==> |value| > 0 && value[0] == '-'
    ensures !ValueLooksLikeOptionKey(None)
  {
  }

  /** `CommandKeyOption`: the constructor stores its three arguments unchanged. */
  datatype CommandKeyOption = CommandKeyOption(shortKey: Option<string>, longKey: Option<string>, description: Option<string>)

  /** The text an interpolation hole shows for a string that may be null: a null string shows as nothing. */
  function Shown(key: Option<string>): (r: string)
    ensures key.None? ==> r == ""
    ensures key.Some? ==> r == key.value
  {
    if key.Some? then key.value else ""
  }

  /**
   * `Signature`: `short|long` when both keys exist, otherwise the one that does, and the
   * empty string when neither does (the interpolation shows a null key as nothing).
   */
  function OptionSignature(o: CommandKeyOption): (r: string)
    ensures o.shortKey.Some? && o.longKey.Some? ==> r == o.shortKey.value + "|" + o.longKey.value
    ensures o.shortKey.None? ==> r == Shown(o.longKey)
    ensures o.shortKey.Some? && o.longKey.None? ==> r == o.shortKey.value
    ensures o.shortKey.None? && o.longKey.None? ==> r == ""
  {
    var key := if o.shortKey.Some? && o.longKey.Some? then Some(o.shortKey.value + "|" + o.longKey.value)
      else if o.shortKey.None? then o.longKey
      else o.shortKey;
    Shown(key)
  }

  /** A signature names every key the option has: each one is a part of it, ahead of or behind the `|`. */
  lemma SignatureNamesKeys(o: CommandKeyOption)
    ensures o.shortKey.Some? ==> o.shortKey.value <= OptionSignature(o)
    ensures o.longKey.Some? ==>
      var s := OptionSignature(o);
      |o.longKey.value| <= |s| && s[|s| - |o.longKey.value|..] == o.longKey.value
    ensures o.shortKey.Some? && o.longKey.Some? ==> |OptionSignature(o)| == |o.shortKey.value| + 1 + |o.longKey.value|
  {
    var s := OptionSignature(o);
    if o.shortKey.Some? && o.longKey.Some? {
      assert s == o.shortKey.value + "|" + o.longKey.value;
      assert s[|s| - |o.longKey.value|..] == o.longKey.value;
    }
  }

  /** A null string never equals a key; otherwise ordinal case-insensitive equality. */
  predicate KeyEquals(key: Option<string>, value: Option<string>) {
    key.Some? && value.Some? && EqualsIgnoreCase(key.value, value.value)
  }

  /** `CommandKeyOption.IsMatched`. */
  predicate OptionIsMatched(o: CommandKeyOption, key: Option<string>)
    ensures OptionIsMatched(o, key) ==> key.Some?
    ensures OptionIsMatched(o, key) ==> (o.shortKey.Some? && |key.value| == |o.shortKey.value|) || (o.longKey.Some? && |key.value| == |o.longKey.value|)
  {
    KeyEquals(o.shortKey, key) || KeyEquals(o.longKey, key)
  }

  /** An option matches each of its own keys, in any letter case, and never a null key. */
  lemma OptionMatchesItsKeys(o: CommandKeyOption, key: Option<string>)
    ensures !OptionIsMatched(o, None)
    ensures o.shortKey.Some? ==> OptionIsMatched(o, o.shortKey)
    ensures o.longKey.Some? ==> OptionIsMatched(o, o.longKey)
    ensures OptionIsMatched(o, key) ==> key.Some? && (KeyEquals(o.shortKey, key) || KeyEquals(o.longKey, key))
  {
    if o.shortKey.Some? {
      EqualsIgnoreCaseIsEquivalence(o.shortKey.value, o.shortKey.value, o.shortKey.value);
    }
    if o.longKey.Some? {
      EqualsIgnoreCaseIsEquivalence(o.longKey.value, o.longKey.value, o.longKey.value);
    }
  }

  /** `options.Exists(o => o.IsMatched(key))`. */
  predicate AnyOptionMatches(options: seq<CommandKeyOption>, key: Option<string>) {
    exists i :: 0 <= i < |options| && OptionIsMatched(options[i], key)
  }

  /** A positional parameter: its dictionary key and its description. */
  datatype Parameter = Parameter(key: string, description: Option<string>)

  /** The error a `GetArguments` call reports instead of a dictionary. */
  datatype ParseError =
    | TooFewParameters(expected: nat, given: nat)
    | InvalidParametersCount
    | RequiredParameterMissing(description: Option<string>)

  /** The index of the first positional value that is missing or looks like an option key, if any. */
  function FirstMissing(args: seq<Option<string>>, n: nat): (r: Option<nat>)
    requires n <= |args|
    ensures r.Some? ==> r.value < n && (IsNullOrWhiteSpace(args[r.value]) || ValueLooksLikeOptionKey(args[r.value]))
    ensures r.Some? ==> forall i :: 0 <= i < r.value ==> !IsNullOrWhiteSpace(args[i]) && !ValueLooksLikeOptionKey(args[i])
    ensures r.None? ==> forall i :: 0 <= i < n ==> !IsNullOrWhiteSpace(args[i]) && !ValueLooksLikeOptionKey(args[i])
  {
    if n == 0 then None
    else
      var before := FirstMissing(args, n - 1);
      if before.Some? then before
      else if IsNullOrWhiteSpace(args[n - 1]) || ValueLooksLikeOptionKey(args[n - 1]) then Some(n - 1)
      else None
  }

  /** The dictionary after the positional loop: value `i` stored under parameter `i`'s key, later keys overwriting earlier ones. */
  function Positional(params: seq<Parameter>, args: seq<Option<string>>): (r: map<string, Option<string>>)
    requires |params| <= |args|
    ensures r.Keys == set i | 0 <= i < |params| :: params[i].key
    ensures |params| > 0 ==> r[params[|params| - 1].key] == args[|params| - 1]
  {
    if params == [] then map[]
    else Positional(params[..|params| - 1], args)[params[|params| - 1].key := args[|params| - 1]]
  }

  /** Positional value `i` is stored under parameter `i`'s key unless a later parameter repeats that key. */
  lemma {:induction false} PositionalStores(params: seq<Parameter>, args: seq<Option<string>>, i: nat)
    requires |params| <= |args| && i < |params| && LastWithKey(params, i)
    ensures params[i].key in Positional(params, args) && Positional(params, args)[params[i].key] == args[i]
  {
    var n := |params| - 1;
    if i < n {
      assert params[..n][i] == params[i];
      assert params[n].key != params[i].key;
      assert LastWithKey(params[..n], i);
      PositionalStores(params[..n], args, i);
    }
  }

  /** No parameter after parameter `i` has its key, so the positional loop stores nothing over its value. */
  predicate LastWithKey(params: seq<Parameter>, i: nat)
    requires i < |params|
  {
    forall k :: i < k < |params| ==> params[k].key != params[i].key
  }

  /** The dictionary after the option loop over the pairs that start at index `i` and end before `n`. */
  function Options(options: seq<CommandKeyOption>, args: seq<Option<string>>, start: nat, n: nat,
                   m: map<string, Option<string>>): (r: map<string, Option<string>>)
    requires start <= n <= |args| && (n - start) % 2 == 0
    decreases n - start
  {
    if n == start then m
    else
      var before := Options(options, args, start, n - 2, m);
      if AnyOptionMatches(options, args[n - 2]) then before[args[n - 2].value := args[n - 1]] else before
  }

  /** A pair is stored under its key exactly when a registered option matches it; unknown keys leave the dictionary unchanged. */
  lemma {:induction false} OptionsKeys(options: seq<CommandKeyOption>, args: seq<Option<string>>, start: nat, n: nat,
                                       m: map<string, Option<string>>)
    requires start <= n <= |args| && (n - start) % 2 == 0
    ensures Options(options, args, start, n, m).Keys
            == m.Keys + set j | start <= j < n && (j - start) % 2 == 0 && AnyOptionMatches(options, args[j]) :: args[j].value
    decreases n - start
  {
    if n > start {
      OptionsKeys(options, args, start, n - 2, m);
      MatchedKeysStep(options, args, start, n);
    }
  }

  /** The last pair of the option loop adds its key to the matched keys exactly when an option matches it. */
  lemma MatchedKeysStep(options: seq<CommandKeyOption>, args: seq<Option<string>>, start: nat, n: nat)
    requires start + 2 <= n <= |args| && (n - start) % 2 == 0
    ensures (set j | start <= j < n && (j - start) % 2 == 0 && AnyOptionMatches(options, args[j]) :: args[j].value)
            == (set j | start <= j < n - 2 && (j - start) % 2 == 0 && AnyOptionMatches(options, args[j]) :: args[j].value)
               + (if AnyOptionMatches(options, args[n - 2]) then {args[n - 2].value} else {})
  {
    assert (n - 2 - start) % 2 == 0 && (n - 1 - start) % 2 == 1;
  }

  /** The last matched pair with a given key decides its value. */
  lemma {:induction false} OptionsLastPairWins(options: seq<CommandKeyOption>, args: seq<Option<string>>, start: nat, n: nat,
                                               m: map<string, Option<string>>, j: nat)
    requires start <= j && j + 2 <= n <= |args| && (n - start) % 2 == 0 && (j - start) % 2 == 0
    requires AnyOptionMatches(options, args[j])
    requires forall k :: j < k < n && (k - start) % 2 == 0 ==> args[k] != args[j] || !AnyOptionMatches(options, args[k])
    ensures args[j].value in Options(options, args, start, n, m)
    ensures Options(options, args, start, n, m)[args[j].value] == args[j + 1]
    decreases n - start
  {
    if n - 2 != j {
      assert (n - 2 - start) % 2 == 0;
      OptionsLastPairWins(options, args, start, n - 2, m, j);
    }
  }

  /** What `GetArguments` returns for a command with these parameters and options. */
  function ParseArguments(params: seq<Parameter>, options: seq<CommandKeyOption>, args: seq<Option<string>>)
    : (r: Result<map<string, Option<string>>, ParseError>)
    ensures |args| < |params| ==> r == Failure(TooFewParameters(|params|, |args|))
    ensures |args| >= |params| && (|args| - |params|) % 2 != 0 ==> r == Failure(InvalidParametersCount)
    ensures r.Success? ==> |args| >= |params| && (|args| - |params|) % 2 == 0
    ensures r.Success? <==> |args| >= |params| && (|args| - |params|) % 2 == 0 && FirstMissing(args, |params|).None?
  {
    if |args| < |params| then Failure(TooFewParameters(|params|, |args|))
    else if (|args| - |params|) % 2 != 0 then Failure(InvalidParametersCount)
    else
      var missing := FirstMissing(args, |params|);
      if missing.Some? then Failure(RequiredParameterMissing(params[missing.value].description))
      else Success(Options(options, args, |params|, |args|, Positional(params, args)))
  }

  /**
   * On success every positional key and every matched option key is in the dictionary,
   * and nothing else is.
   */
  lemma ParsedKeys(params: seq<Parameter>, options: seq<CommandKeyOption>, args: seq<Option<string>>)
    requires ParseArguments(params, options, args).Success?
    ensures ParseArguments(params, options, args).value.Keys
            == (set i | 0 <= i < |params| :: params[i].key)
               + set j | |params| <= j < |args| && (j - |params|) % 2 == 0 && AnyOptionMatches(options, args[j]) :: args[j].value
  {
    OptionsKeys(options, args, |params|, |args|, Positional(params, args));
  }

  /**
   * Positional value `i` is stored under parameter `i`'s key, unless a later parameter
   * repeats that key or a matched option pair overwrites it.
   */
  lemma PositionalValue(params: seq<Parameter>, options: seq<CommandKeyOption>, args: seq<Option<string>>, i: nat)
    requires ParseArguments(params, options, args).Success? && i < |params|
    requires LastWithKey(params, i)
    requires forall k :: |params| <= k < |args| && (k - |params|) % 2 == 0 && AnyOptionMatches(options, args[k])
                         ==> args[k] != Some(params[i].key)
    ensures params[i].key in ParseArguments(params, options, args).value
    ensures ParseArguments(params, options, args).value[params[i].key] == args[i]
  {
    assert ParseArguments(params, options, args) == Success(Options(options, args, |params|, |args|, Positional(params, args)));
    PositionalSurvives(params, options, args, i);
  }

  /** `PositionalValue` for the dictionary the option loop builds over the positional one. */
  lemma PositionalSurvives(params: seq<Parameter>, options: seq<CommandKeyOption>, args: seq<Option<string>>, i: nat)
    requires |params| <= |args| && (|args| - |params|) % 2 == 0 && i < |params| && LastWithKey(params, i)
    requires forall k :: |params| <= k < |args| && (k - |params|) % 2 == 0 && AnyOptionMatches(options, args[k])
                         ==> args[k] != Some(params[i].key)
    ensures var d := Options(options, args, |params|, |args|, Positional(params, args));
      params[i].key in d && d[params[i].key] == args[i]
  {
    PositionalStores(params, args, i);
    OptionsUntouched(options, args, |params|, |args|, Positional(params, args), params[i].key);
  }

  /** A key no matched pair carries keeps its value through the option loop. */
  lemma {:induction false} OptionsUntouched(options: seq<CommandKeyOption>, args: seq<Option<string>>, start: nat, n: nat,
                                            m: map<string, Option<string>>, key: string)
    requires start <= n <= |args| && (n - start) % 2 == 0 && key in m
    requires forall k :: start <= k < n && (k - start) % 2 == 0 && AnyOptionMatches(options, args[k]) ==> args[k] != Some(key)
    ensures key in Options(options, args, start, n, m) && Options(options, args, start, n, m)[key] == m[key]
    decreases n - start
  {
    if n > start {
      assert (n - 2 - start) % 2 == 0;
      OptionsUntouched(options, args, start, n - 2, m, key);
    }
  }

  /** `CommandArgument`: a command key, its description, and the parameters and options registered on it. */
  class CommandArgument {
    const key: string
    const description: Option<string>
    var positionParameters: seq<Parameter>
    var options: seq<CommandKeyOption>

    constructor (key: string, description: Option<string>)
      ensures this.key == key && this.description == description
      ensures positionParameters == [] && options == []
    {
      this.key := key;
      this.description := description;
      positionParameters := [];
      options := [];
    }

    /** `AddPositionParameters`: appends one positional parameter. */
    method AddPositionParameters(key: string, description: Option<string>)
      modifies this
      ensures positionParameters == old(positionParameters) + [Parameter(key, description)]
      ensures options == old(options)
      ensures Signature() == old(Signature()) + (if old(positionParameters) == [] then "<" else " <") + key + ">"
    {
      ParametersSignatureSnoc(positionParameters, Parameter(key, description));
      positionParameters := positionParameters + [Parameter(key, description)];
    }

    /** `AddOption`: appends one option. */
    method AddOption(option: CommandKeyOption)
      modifies this
      ensures options == old(options) + [option]
      ensures positionParameters == old(positionParameters)
    {
      options := options + [option];
    }

    /** `IsMatched`: the command key, compared ignoring case; a null value never matches. */
    predicate IsMatched(value: Option<string>)
      reads this
      ensures IsMatched(value) ==> value.Some? && |value.value| == |key|
      ensures value == Some(key) ==> IsMatched(value)
    {
      KeyEquals(Some(key), value)
    }

    /** `Signature`: the key followed by ` <name>` for each positional parameter. */
    function Signature(): (r: string)
      reads this
      ensures |r| == |key| + 1 + SignatureLength(positionParameters)
      ensures r[..|key| + 1] == key + " "
    {
      key + " " + ParametersSignature(positionParameters)
    }

    /**
     * `ParametersDescriptions`: the positional parameters with their descriptions, in the
     * order they were added, then each option's signature with its description.
     */
    function ParametersDescriptions(): (r: seq<(string, Option<string>)>)
      reads this
      ensures |r| == |positionParameters| + |options|
      ensures forall i :: 0 <= i < |positionParameters| ==>
        r[i] == (positionParameters[i].key, positionParameters[i].description)
      ensures forall i :: 0 <= i < |options| ==>
        r[|positionParameters| + i] == (OptionSignature(options[i]), options[i].description)
    {
      ParameterEntries(positionParameters) + OptionEntries(options)
    }

    /**
     * `GetArguments`: checks the argument count, then stores each positional value under its
     * parameter's key, then each `key value` pair whose key some option matches.
     */
    method GetArguments(args: seq<Option<string>>) returns (r: Result<map<string, Option<string>>, ParseError>)
      ensures r == ParseArguments(positionParameters, options, args)
    {
      var ps := positionParameters;
      var opts := options;
      if |args| < |ps| {
        return Failure(TooFewParameters(|ps|, |args|));
      }
      if (|args| - |ps|) % 2 != 0 {
        return Failure(InvalidParametersCount);
      }
      var positional := StorePositional(ps, opts, args);
      if positional.Failure? {
        return positional;
      }
      var result := StoreOptions(opts, args, |ps|, positional.value);
      return Success(result);
    }
  }

  /** Each positional parameter as its key and description. */
  function ParameterEntries(ps: seq<Parameter>): (r: seq<(string, Option<string>)>)
    ensures |r| == |ps|
    ensures forall i :: 0 <= i < |ps| ==> r[i] == (ps[i].key, ps[i].description)
  {
    if ps == [] then [] else [(ps[0].key, ps[0].description)] + ParameterEntries(ps[1..])
  }

  /** Each option as its signature and description. */
  function OptionEntries(os: seq<CommandKeyOption>): (r: seq<(string, Option<string>)>)
    ensures |r| == |os|
    ensures forall i :: 0 <= i < |os| ==> r[i] == (OptionSignature(os[i]), os[i].description)
  {
    if os == [] then [] else [(OptionSignature(os[0]), os[0].description)] + OptionEntries(os[1..])
  }

  /** The positional loop of `GetArguments`: fails on the first missing value, else the positional dictionary. */
  method StorePositional(ps: seq<Parameter>, options: seq<CommandKeyOption>, args: seq<Option<string>>)
    returns (r: Result<map<string, Option<string>>, ParseError>)
    requires |ps| <= |args| && (|args| - |ps|) % 2 == 0
    ensures r.Failure? ==> r == ParseArguments(ps, options, args)
    ensures r.Success? ==> FirstMissing(args, |ps|).None? && r.value == Positional(ps, args)
  {
    var result: map<string, Option<string>> := map[];
    var i := 0;
    while i < |ps|
      invariant 0 <= i <= |ps|
      invariant FirstMissing(args, i).None?
      invariant result == Positional(ps[..i], args)
    {
      var value := args[i];
      if IsNullOrWhiteSpace(value) || ValueLooksLikeOptionKey(value) {
        MissingFound(ps, options, args, i);
        return Failure(RequiredParameterMissing(ps[i].description));
      }
      PositionalStep(ps, args, i);
      result := result[ps[i].key := value];
      i := i + 1;
    }
    assert ps[..i] == ps;
    return Success(result);
  }

  /** The option loop of `GetArguments`: each `key value` pair from `start` on whose key an option matches. */
  method StoreOptions(options: seq<CommandKeyOption>, args: seq<Option<string>>, start: nat, m: map<string, Option<string>>)
    returns (result: map<string, Option<string>>)
    requires start <= |args| && (|args| - start) % 2 == 0
    ensures result == Options(options, args, start, |args|, m)
  {
    result := m;
    var i := start;
    while i < |args|
      invariant start <= i <= |args| && (i - start) % 2 == 0
      invariant result == Options(options, args, start, i, m)
    {
      var key := args[i];
      if AnyOptionMatches(options, key) {
        result := result[key.value := args[i + 1]];
      }
      i := i + 2;
    }
  }

  /** One more positional parameter adds its key with its value. */
  lemma PositionalStep(ps: seq<Parameter>, args: seq<Option<string>>, i: nat)
    requires i < |ps| <= |args|
    ensures Positional(ps[..i + 1], args) == Positional(ps[..i], args)[ps[i].key := args[i]]
  {
    assert ps[..i + 1][..i] == ps[..i];
  }

  /** The first missing positional value decides the error. */
  lemma MissingFound(ps: seq<Parameter>, options: seq<CommandKeyOption>, args: seq<Option<string>>, i: nat)
    requires i < |ps| <= |args| && (|args| - |ps|) % 2 == 0
    requires FirstMissing(args, i).None? && (IsNullOrWhiteSpace(args[i]) || ValueLooksLikeOptionKey(args[i]))
    ensures ParseArguments(ps, options, args) == Failure(RequiredParameterMissing(ps[i].description))
  {
    assert FirstMissing(args, i + 1) == Some(i);
    FirstMissingStays(args, i + 1, |ps|);
  }

  /** Once a missing value has been found, scanning further parameters still reports it. */
  lemma {:induction false} FirstMissingStays(args: seq<Option<string>>, i: nat, n: nat)
    requires i <= n <= |args| && FirstMissing(args, i).Some?
    ensures FirstMissing(args, n) == FirstMissing(args, i)
    decreases n - i
  {
    if n > i {
      FirstMissingStays(args, i, n - 1);
    }
  }

  function ParametersSignature(ps: seq<Parameter>): string {
    if ps == [] then ""
    else if |ps| == 1 then "<" + ps[0].key + ">"
    else ParametersSignature(ps[..|ps| - 1]) + " <" + ps[|ps| - 1].key + ">"
  }

  function SignatureLength(ps: seq<Parameter>): nat {
    |ParametersSignature(ps)|
  }

  /** Registering one more parameter adds its `<key>` at the end, after a space unless it is the first. */
  lemma ParametersSignatureSnoc(ps: seq<Parameter>, p: Parameter)
    ensures ParametersSignature(ps + [p]) == ParametersSignature(ps) + (if ps == [] then "<" else " <") + p.key + ">"
  {
    assert (ps + [p])[..|ps|] == ps;
  }

  /** How many times `c` occurs in `s`. */
  function Occurrences(s: string, c: char): (r: nat)
    ensures r <= |s|
  {
    if s == [] then 0 else (if s[|s| - 1] == c then 1 else 0) + Occurrences(s[..|s| - 1], c)
  }

  lemma {:induction false} OccurrencesAppend(a: string, b: string, c: char)
    ensures Occurrences(a + b, c) == Occurrences(a, c) + Occurrences(b, c)
    decreases |b|
  {
    if b != [] {
      assert (a + b)[..|a + b| - 1] == a + b[..|b| - 1];
      OccurrencesAppend(a, b[..|b| - 1], c);
    } else {
      assert a + b == a;
    }
  }

  /** The occurrences in a parameter's `<key>` piece appended to a signature. */
  lemma OccurrencesOfPiece(sig: string, opener: string, key: string, c: char)
    ensures Occurrences(sig + opener + key + ">", c)
      == Occurrences(sig, c) + Occurrences(opener, c) + Occurrences(key, c) + Occurrences(">", c)
  {
    OccurrencesAppend(sig, opener, c);
    OccurrencesAppend(sig + opener, key, c);
    OccurrencesAppend(sig + opener + key, ">", c);
  }

  /** The openers hold one `<` each, and the closer none. */
  lemma BracketCounts()
    ensures Occurrences("<", '<') == 1 && Occurrences(" <", '<') == 1 && Occurrences(">", '<') == 0
  {
    assert " <"[..1] == " ";
    assert " "[..0] == "";
  }

  /**
   * The signature opens one `<` per registered parameter, in order, so none is lost or
   * repeated, as long as no key holds a `<` itself.
   */
  lemma {:induction false} SignatureOpensOnePerParameter(ps: seq<Parameter>)
    requires forall i :: 0 <= i < |ps| ==> Occurrences(ps[i].key, '<') == 0
    ensures Occurrences(ParametersSignature(ps), '<') == |ps|
  {
    if ps != [] {
      var init := ps[..|ps| - 1];
      var last := ps[|ps| - 1];
      assert ps == init + [last];
      SignatureOpensOnePerParameter(init);
      ParametersSignatureSnoc(init, last);
      var opener: string := if init == [] then "<" else " <";
      OccurrencesOfPiece(ParametersSignature(init), opener, last.key, '<');
      BracketCounts();
    }
  }
}
